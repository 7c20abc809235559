/** The body type page: the status label it shows and the transition its button
    events make. */
module Page {
  import opened Optional
  import opened Uuids
  import opened BodyTypes
  import Text
  import opened Command

  /** The "#StatusLabel" text and colour for a flag. */
  function StatusLabel(enabled: bool): (r: Colored)
    ensures r.text == "Status: ON" <==> enabled
    ensures r.text == "Status: OFF" <==> !enabled
    ensures r.color == (if enabled then OnColor else OffColor)
  {
    if enabled then Colored("Status: ON", OnColor) else Colored("Status: OFF", OffColor)
  }

  /** The label build sets when the page opens; refresh sets the same label again
      after every change. */
  function Build(p: Plugin, u: Uuid): (r: Colored)
    ensures r.text == "Status: ON" <==> IsEnabled(p, u)
  {
    StatusLabel(IsEnabled(p, u))
  }

  /** The chat line for a flag: "HBT: enabled" in green or "HBT: disabled" in red. */
  function ChatReply(enabled: bool): (r: Colored)
    ensures r.text == "HBT: enabled" <==> enabled
    ensures r.text == "HBT: disabled" <==> !enabled
    ensures r.color == (if enabled then OnColor else OffColor)
  {
    Colored("HBT: " + (if enabled then "enabled" else "disabled"), if enabled then OnColor else OffColor)
  }

  /** What one event did: the new state, the chat line sent, the status label refreshed
      and whether the page was closed. */
  datatype PageOutcome = PageOutcome(plugin: Plugin, chat: Option<Colored>, status: Option<Colored>, closed: bool)

  /** The actions that change the player's flag and so write the state file. */
  predicate Changes(action: string)
  {
    action == "Enable" || action == "Disable" || action == "Toggle"
  }

  /** A null action reads as the empty string. */
  function Action(data: Option<string>): (action: string)
    ensures data.None? ==> action == ""
    ensures data.Some? ==> action == data.value
  {
    match data
    case None => ""
    case Some(a) => a
  }

  /** handleDataEvent for the page's player `u`; `hasPlayer` says whether the player
      component was found, `w` is the outcome of the state-file write. */
  function HandleDataEvent(p: Plugin, u: Uuid, hasPlayer: bool, data: Option<string>, w: WriteOutcome): (r: PageOutcome)
    requires hasPlayer && Changes(Action(data)) ==> Command.WriteFits(p, u, w)
    ensures !hasPlayer ==> r == PageOutcome(p, None, None, false)
    ensures !(hasPlayer && Changes(Action(data))) ==> r.plugin == p && r.chat.None? && r.status.None?
    ensures r.closed <==> hasPlayer && Action(data) == "Close"
    ensures hasPlayer && Action(data) == "Enable" ==> IsEnabled(r.plugin, u)
    ensures hasPlayer && Action(data) == "Disable" ==> !IsEnabled(r.plugin, u)
    ensures hasPlayer && Action(data) == "Toggle" ==> IsEnabled(r.plugin, u) == !IsEnabled(p, u)
    ensures forall v | v != u :: IsEnabled(r.plugin, v) == IsEnabled(p, v)
    ensures hasPlayer && Changes(Action(data)) ==>
      r.chat == Some(ChatReply(IsEnabled(r.plugin, u))) && r.status == Some(Build(r.plugin, u))
  {
    if !hasPlayer then PageOutcome(p, None, None, false)
    else
      var action := Action(data);
      if action == "Enable" then
        var q := ApplyBodyCharacteristic(SetEnabled(p, u, true, w), u);
        PageOutcome(q, Some(Colored("HBT: enabled", OnColor)), Some(Build(q, u)), false)
      else if action == "Disable" then
        var q := ApplyBodyCharacteristic(SetEnabled(p, u, false, w), u);
        assert ChatReply(false).text == "HBT: disabled";
        PageOutcome(q, Some(Colored("HBT: disabled", OffColor)), Some(Build(q, u)), false)
      else if action == "Toggle" then
        var q := ApplyBodyCharacteristic(Toggle(p, u, w), u);
        PageOutcome(q, Some(ChatReply(IsEnabled(q, u))), Some(Build(q, u)), false)
      else if action == "Close" then
        PageOutcome(p, None, None, true)
      else
        PageOutcome(p, None, None, false)
  }

  /** Actions match case-sensitively, unlike the command's modes: any other
      capitalisation of a button's name ("enable", "TOGGLE", "close") is ignored. */
  lemma CaseSensitive(p: Plugin, u: Uuid, a: string, w: WriteOutcome)
    requires Text.Lower(a) in {"enable", "disable", "toggle", "close"}
    requires a !in {"Enable", "Disable", "Toggle", "Close"}
    ensures HandleDataEvent(p, u, true, Some(a), w) == PageOutcome(p, None, None, false)
  {
  }

  /** The page's buttons and the command's modes make the same change to the store:
      Enable is on, Disable is off, Toggle is toggle. */
  lemma EnableIsOn(p: Plugin, u: Uuid, w: WriteOutcome)
    requires Command.WriteFits(p, u, w)
    ensures HandleDataEvent(p, u, true, Some("Enable"), w).plugin == Command.Execute(p, u, Some("on"), w).plugin
  {
    assert Text.Lower("on") == "on";
  }

  lemma DisableIsOff(p: Plugin, u: Uuid, w: WriteOutcome)
    requires Command.WriteFits(p, u, w)
    ensures HandleDataEvent(p, u, true, Some("Disable"), w).plugin == Command.Execute(p, u, Some("off"), w).plugin
  {
    assert Text.Lower("off") == "off";
  }

  lemma ToggleIsToggle(p: Plugin, u: Uuid, w: WriteOutcome)
    requires Command.WriteFits(p, u, w)
    ensures HandleDataEvent(p, u, true, Some("Toggle"), w).plugin == Command.Execute(p, u, Some("toggle"), w).plugin
  {
    assert Text.Lower("toggle") == "toggle";
  }
}
