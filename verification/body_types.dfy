/** The plugin's preference store: a flag per player, read with a default of false,
    and written to the state file after every change. */
module BodyTypes {
  import opened Uuids
  import opened StateFile

  /** The in-memory map and what the data file holds. */
  datatype Plugin = Plugin(players: Store, file: FileState)

  /** How a saveState write ends: the temporary file is written and moved over the
      data file with the map's entries coming out in `order`, or an IOException is
      swallowed. */
  datatype WriteOutcome = Written(order: seq<Uuid>) | WriteFailed

  /** A successful write lists each key of the map exactly once. */
  ghost predicate Fits(m: Store, w: WriteOutcome)
  {
    w.Written? ==> Enumerates(w.order, m.Keys)
  }

  /** isEnabled: getOrDefault(uuid, false). */
  function IsEnabled(p: Plugin, u: Uuid): (b: bool)
    ensures u !in p.players ==> !b
    ensures u in p.players ==> b == p.players[u]
  {
    if u in p.players then p.players[u] else false
  }

  /** saveState: the map itself is never touched; a failed write leaves the file as it was. */
  function Save(p: Plugin, w: WriteOutcome): (r: Plugin)
    requires Fits(p.players, w)
    ensures r.players == p.players
    ensures w.WriteFailed? ==> r.file == p.file
    ensures w.Written? ==> r.file.Contents?
  {
    match w
    case Written(order) => Plugin(p.players, Contents(Serialize(p.players, order)))
    case WriteFailed => p
  }

  /** setEnabled: put, then save. */
  function SetEnabled(p: Plugin, u: Uuid, b: bool, w: WriteOutcome): (r: Plugin)
    requires Fits(p.players[u := b], w)
    ensures IsEnabled(r, u) == b
    ensures forall v | v != u :: IsEnabled(r, v) == IsEnabled(p, v)
    ensures r.players.Keys == p.players.Keys + {u}
  {
    Save(Plugin(p.players[u := b], p.file), w)
  }

  /** toggle: put the negation of the current flag, then save. */
  function Toggle(p: Plugin, u: Uuid, w: WriteOutcome): (r: Plugin)
    requires Fits(p.players[u := !IsEnabled(p, u)], w)
    ensures IsEnabled(r, u) == !IsEnabled(p, u)
    ensures forall v | v != u :: IsEnabled(r, v) == IsEnabled(p, v)
  {
    SetEnabled(p, u, !IsEnabled(p, u), w)
  }

  /** setup: the state is loaded into the plugin's fresh, empty map. */
  function Setup(file: FileState): (p: Plugin)
    ensures p.file == file
    ensures file.Absent? || file.Unreadable? ==> p.players == map[]
  {
    Plugin(Load(file, map[]), file)
  }

  /** The appearance override both dispatchers call; its definition is not part of
      this model, and it does not touch the preference map. */
  function ApplyBodyCharacteristic(p: Plugin, u: Uuid): (r: Plugin)
    ensures r.players == p.players && r.file == p.file
  {
    p
  }

  /** Toggling twice gives every player back the flag they had. */
  lemma ToggleTwice(p: Plugin, u: Uuid, w1: WriteOutcome, w2: WriteOutcome)
    requires Fits(p.players[u := !IsEnabled(p, u)], w1)
    requires Fits(Toggle(p, u, w1).players[u := IsEnabled(p, u)], w2)
    ensures forall v :: IsEnabled(Toggle(Toggle(p, u, w1), u, w2), v) == IsEnabled(p, v)
  {
    var q := Toggle(p, u, w1);
    assert !IsEnabled(q, u) == IsEnabled(p, u);
  }

  /** After a successful save, loading the file — into any map — gives back the map. */
  lemma SaveThenLoad(p: Plugin, w: WriteOutcome, prior: Store)
    requires w.Written? && Fits(p.players, w)
    ensures Load(Save(p, w).file, prior) == p.players
  {
    LoadSerialized(p.players, w.order, prior);
  }

  /** A restart after a successful setEnabled sees the same flags. */
  lemma RestartKeepsFlags(p: Plugin, u: Uuid, b: bool, w: WriteOutcome)
    requires w.Written? && Fits(p.players[u := b], w)
    ensures Setup(SetEnabled(p, u, b, w).file).players == SetEnabled(p, u, b, w).players
  {
    SaveThenLoad(Plugin(p.players[u := b], p.file), w, map[]);
  }
}
