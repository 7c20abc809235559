/** The `/bodytype <mode>` variant: a transition from the mode argument and the
    plugin state to a new state and one coloured chat reply. */
module Command {
  import opened Optional
  import opened Text
  import opened Uuids
  import opened StateFile
  import opened BodyTypes

  /** A chat line or label: text in one hex colour. */
  datatype Colored = Colored(text: string, color: string)

  datatype Outcome = Outcome(plugin: Plugin, reply: Colored)

  const OnColor := "#4aff7f"
  const OffColor := "#ff6b6b"

  /** The modes that change the player's flag and so write the state file. */
  predicate Writes(mode: string)
  {
    mode == "on" || mode == "off" || mode == "toggle"
  }

  /** A null mode reads as "status"; any other is lower-cased. */
  function Mode(arg: Option<string>): (mode: string)
    ensures arg.None? ==> mode == "status"
    ensures arg.Some? ==> |mode| == |arg.value| && EqualsIgnoreCase(mode, arg.value)
    ensures arg.Some? ==> forall i | 0 <= i < |mode| :: !('A' <= mode[i] <= 'Z')
  {
    match arg
    case None => "status"
    case Some(s) => Lower(s)
  }

  /** "Hytale Body Types: ON" in green or "...: OFF" in red. */
  function StatusReply(enabled: bool): (r: Colored)
    ensures r.text == "Hytale Body Types: ON" <==> enabled
    ensures r.text == "Hytale Body Types: OFF" <==> !enabled
    ensures r.color == (if enabled then OnColor else OffColor)
  {
    Colored("Hytale Body Types: " + (if enabled then "ON" else "OFF"), if enabled then OnColor else OffColor)
  }

  const ApplyReply := Colored("Applied current HBT state.", "#cbd5e0")
  const UsageReply := Colored("Use: /bodytype on|off|toggle|status|apply", OffColor)

  /** A write, when the mode makes one, lists the keys the map has afterwards. */
  ghost predicate WriteFits(p: Plugin, u: Uuid, w: WriteOutcome)
  {
    w.Written? ==> Enumerates(w.order, p.players.Keys + {u})
  }

  /** ModeVariant.execute for the player `u`, with `w` the outcome of the state-file
      write that on, off and toggle make. */
  function Execute(p: Plugin, u: Uuid, arg: Option<string>, w: WriteOutcome): (r: Outcome)
    requires Writes(Mode(arg)) ==> WriteFits(p, u, w)
    ensures Mode(arg) == "on" ==> IsEnabled(r.plugin, u)
    ensures Mode(arg) == "off" ==> !IsEnabled(r.plugin, u)
    ensures Mode(arg) == "toggle" ==> IsEnabled(r.plugin, u) == !IsEnabled(p, u)
    ensures !Writes(Mode(arg)) ==> r.plugin == p
    ensures forall v | v != u :: IsEnabled(r.plugin, v) == IsEnabled(p, v)
    ensures Writes(Mode(arg)) || Mode(arg) == "status" ==> r.reply == StatusReply(IsEnabled(r.plugin, u))
    ensures Mode(arg) == "apply" ==> r.reply == ApplyReply
    ensures !Writes(Mode(arg)) && Mode(arg) != "status" && Mode(arg) != "apply" ==> r.reply == UsageReply
  {
    var mode := Mode(arg);
    if mode == "on" then
      Outcome(ApplyBodyCharacteristic(SetEnabled(p, u, true, w), u), Colored("Hytale Body Types: ON", OnColor))
    else if mode == "off" then
      Outcome(ApplyBodyCharacteristic(SetEnabled(p, u, false, w), u), Colored("Hytale Body Types: OFF", OffColor))
    else if mode == "toggle" then
      var q := ApplyBodyCharacteristic(Toggle(p, u, w), u);
      Outcome(q, StatusReply(IsEnabled(q, u)))
    else if mode == "apply" then
      Outcome(ApplyBodyCharacteristic(p, u), ApplyReply)
    else if mode == "status" then
      Outcome(p, StatusReply(IsEnabled(p, u)))
    else
      Outcome(p, UsageReply)
  }

  /** The mode is matched after lower-casing: "ON" behaves like "on". */
  lemma CaseInsensitive(p: Plugin, u: Uuid, s: string, w: WriteOutcome)
    requires Writes(Lower(s)) ==> WriteFits(p, u, w)
    ensures Execute(p, u, Some(s), w) == Execute(p, u, Some(Lower(s)), w)
  {
    LowerIdempotent(s);
  }

  /** A missing mode shows the status. */
  lemma MissingModeIsStatus(p: Plugin, u: Uuid, w: WriteOutcome)
    ensures Execute(p, u, None, w) == Execute(p, u, Some("status"), w)
  {
    assert Lower("status") == "status";
  }

  /** on and off are idempotent: repeating them leaves every flag as the first did. */
  lemma OnOffIdempotent(p: Plugin, u: Uuid, s: string, w1: WriteOutcome, w2: WriteOutcome)
    requires s == "on" || s == "off"
    requires WriteFits(p, u, w1)
    requires WriteFits(Execute(p, u, Some(s), w1).plugin, u, w2)
    ensures forall v :: IsEnabled(Execute(Execute(p, u, Some(s), w1).plugin, u, Some(s), w2).plugin, v)
                     == IsEnabled(Execute(p, u, Some(s), w1).plugin, v)
  {
    assert Lower(s) == s;
  }
}
