# Hytale Body Types — a Dafny model

This project models the sequential core of the Hytale Body Types server plugin.

The plugin keeps one on/off preference per player: body types enabled or not. The preference is stored in a map from player UUID to boolean, and a player never stored reads as off. Every change writes the map to `plugins/HytaleBodyTypes/player_state.json` as `{"players":{"<uuid>":true,...}}`. At start-up the file is read back by scanning it with a regular expression.

Two dispatchers change the preference:
- the `/bodytype <mode>` command variant (`on`, `off`, `toggle`, `apply`, `status`, matched after lower-casing);
- the button events of the body type page (`Enable`, `Disable`, `Toggle`, `Close`, matched exactly).

The page shows a status label.

A helper builds clickable chat buttons by probing the host's message API through reflection. The model keeps only the choices that probing makes:
- which method is picked;
- which enum constant is picked;
- which candidate call wins;
- when the one-time diagnostic is printed.

Modules, one per file:
- `Optional` (`optional.dfy`): the option type.
- `Text` (`text.dfy`): ASCII lower-casing, equalsIgnoreCase, contains, and String.trim.
- `Uuids` (`uuids.dfy`): java.util.UUID as five RFC 4122 fields.
  - `ToString` is the canonical form of section 3 of RFC 4122.
  - `FromString` is the JDK parser, including its leniencies: groups of any length, and values masked to the field widths.
- `StateFile` (`state_file.dfy`): saveState's serialiser, loadState's `Matcher.find` scan, and the loader's handling of a missing, unreadable, blank or rejected file.
- `BodyTypes` (`body_types.dfy`): the plugin state (map plus file), and isEnabled, setEnabled, toggle, saveState and setup.
- `ChatUi` (`chat_ui.dfy`): findMethod, findEnumConstant, hasAnyEnumConstant, findEnumContaining, tryInvoke(Any), attachRunCommandClick, button and debugLogOnce.
- `Command` (`command.dfy`): ModeVariant.execute.
- `Page` (`page.dfy`): handleDataEvent and the status label of build and refresh.

Inputs the program gets from outside are parameters of the model:
- The outcome of a state-file write is a `WriteOutcome`. `Written(order)` gives the order in which the map's entries came out of the ConcurrentHashMap. `WriteFailed` stands for a swallowed IOException.
- What the loader finds on disk is a `FileState`: `Absent`, `Unreadable` (readString throws) or `Contents(text)`.
- The host's reflective API is a `ChatUi.Host`. It holds the method descriptors, the classes declared in the message class, an abstract `isAssignableFrom` relation, and an abstract "this invocation returns normally" predicate.
- Whether the page's player component exists is a boolean.

## Model

| member | source | states |
|---|---|---|
| `BodyTypes.IsEnabled` | src/main/java/com/maxello/hytalebodytypes/HytaleBodyTypes.java:50-52 | a player never stored reads as false; a stored player reads as the stored flag |
| `BodyTypes.SetEnabled` | src/main/java/com/maxello/hytalebodytypes/HytaleBodyTypes.java:54-57 | afterwards the player's flag is the given value; every other player's flag is unchanged; the key set gains only that player |
| `BodyTypes.Toggle` | src/main/java/com/maxello/hytalebodytypes/HytaleBodyTypes.java:59-63 | the flag becomes the negation of its prior value (absent counts as false); every other flag is unchanged |
| `BodyTypes.ApplyBodyCharacteristic` | src/main/java/com/maxello/hytalebodytypes/HBTCommand.java:74 | the appearance hook leaves the preference map and the state file alone |
| `BodyTypes.ToggleTwice` | src/main/java/com/maxello/hytalebodytypes/HytaleBodyTypes.java:59-63 | toggling twice gives every player back the flag they had |
| `BodyTypes.Save` | src/main/java/com/maxello/hytalebodytypes/HytaleBodyTypes.java:127-154 | the in-memory map is never changed; a failed write leaves the file as it was; a successful one leaves text in it |
| `BodyTypes.SaveThenLoad` | src/main/java/com/maxello/hytalebodytypes/HytaleBodyTypes.java:100-154 | after a successful save, loading the file gives back exactly the saved map, whatever map the loader starts from |
| `BodyTypes.Setup` | src/main/java/com/maxello/hytalebodytypes/HytaleBodyTypes.java:30-41 | setup loads into an empty map: with no file, or an unreadable one, the map is empty |
| `BodyTypes.RestartKeepsFlags` | src/main/java/com/maxello/hytalebodytypes/HytaleBodyTypes.java:40-57 | after a successful setEnabled, a restart (setup on the written file) reproduces the map |
| `StateFile.Serialize` | src/main/java/com/maxello/hytalebodytypes/HytaleBodyTypes.java:130-141 | the saved text opens with `{"players":{` and closes with `}}` |
| `StateFile.BuildText` | src/main/java/com/maxello/hytalebodytypes/HytaleBodyTypes.java:130-141 | the StringBuilder loop writes `{"players":{`, then the entries in iteration order separated by commas with none before the first, then `}}` |
| `StateFile.SerializeEmpty` | src/main/java/com/maxello/hytalebodytypes/HytaleBodyTypes.java:130-141 | the empty map is written as `{"players":{}}` |
| `StateFile.MatchAt` | src/main/java/com/maxello/hytalebodytypes/HytaleBodyTypes.java:115 | a match starts with a quote and 36 characters of `[0-9a-fA-F-]`, then a closing quote; group 1 is those 36 characters; the match consumes a non-empty prefix |
| `StateFile.Scan` | src/main/java/com/maxello/hytalebodytypes/HytaleBodyTypes.java:115-117 | every group the repeated find() reports is 36 characters long |
| `StateFile.ScanBound` | src/main/java/com/maxello/hytalebodytypes/HytaleBodyTypes.java:115-117 | each match is at least 43 characters long, so a text yields at most one entry per 43 characters |
| `StateFile.ScanIds` | src/main/java/com/maxello/hytalebodytypes/HytaleBodyTypes.java:115-117 | every character of every group the find loop reports is in the pattern's class |
| `StateFile.ScanQuoted` | src/main/java/com/maxello/hytalebodytypes/HytaleBodyTypes.java:115-119 | a quoted 36-character identifier, a colon and `true`/`false` form one match, whatever follows it |
| `StateFile.ScanSerialized` | src/main/java/com/maxello/hytalebodytypes/HytaleBodyTypes.java:115-141 | scanning the saved text finds exactly one entry per map key, in writing order, carrying the key's printed form and its flag |
| `StateFile.TrimSerialized` | src/main/java/com/maxello/hytalebodytypes/HytaleBodyTypes.java:108 | trim leaves the saved text unchanged |
| `StateFile.LoadSerialized` | src/main/java/com/maxello/hytalebodytypes/HytaleBodyTypes.java:107-121 | reading back the saved text reproduces the map, for every entry order and every prior map |
| `StateFile.Load` | src/main/java/com/maxello/hytalebodytypes/HytaleBodyTypes.java:100-125 | a missing file leaves the map as it was; an unreadable one empties it; a blank or whitespace-only one leaves it as it was |
| `StateFile.LoadForgetsPrior` | src/main/java/com/maxello/hytalebodytypes/HytaleBodyTypes.java:109-121 | for a non-blank file the map is cleared first: every key afterwards was matched in the file |
| `StateFile.ReplayRejects` | src/main/java/com/maxello/hytalebodytypes/HytaleBodyTypes.java:117-124 | the find loop throws exactly when some matched group is not accepted by UUID.fromString |
| `StateFile.LoadRejected` | src/main/java/com/maxello/hytalebodytypes/HytaleBodyTypes.java:117-124 | one rejected group empties the map, including entries put before it |
| `StateFile.LoadLastWins` | src/main/java/com/maxello/hytalebodytypes/HytaleBodyTypes.java:117-121 | when a UUID is matched more than once, its last match decides its flag |
| `StateFile.Replay` | src/main/java/com/maxello/hytalebodytypes/HytaleBodyTypes.java:117-121 | when the loop finishes, no key present before it has been removed |
| `StateFile.ReplayKeys` | src/main/java/com/maxello/hytalebodytypes/HytaleBodyTypes.java:117-121 | the loop's keys are those already present plus those some match names |
| `Uuids.ToString` | src/main/java/com/maxello/hytalebodytypes/HytaleBodyTypes.java:138 | a UUID prints in the 8-4-4-4-12 layout: 36 characters with dashes exactly at positions 8, 13, 18 and 23 and a lower-case hexadecimal digit everywhere else |
| `Uuids.ToStringInjective` | src/main/java/com/maxello/hytalebodytypes/HytaleBodyTypes.java:138 | distinct UUIDs print differently, so the file never holds two entries for one key |
| `Uuids.ParseLong` | src/main/java/com/maxello/hytalebodytypes/HytaleBodyTypes.java:118 | a group parses exactly when it is non-empty, all hexadecimal, and below 2^63; the value is then its hexadecimal value |
| `Uuids.FromString` | src/main/java/com/maxello/hytalebodytypes/HytaleBodyTypes.java:118 | an accepted string is at most 36 characters long and has exactly four dashes |
| `Uuids.FromStringToString` | src/main/java/com/maxello/hytalebodytypes/HytaleBodyTypes.java:118 | parsing a printed UUID gives the same UUID back |
| `Text.Trim` | src/main/java/com/maxello/hytalebodytypes/HytaleBodyTypes.java:108 | the result is the text with a prefix and a suffix of characters up to U+0020 removed; it is empty exactly when the text is blank, and otherwise starts and ends with a character above U+0020 |
| `Text.TrimKeeps` | src/main/java/com/maxello/hytalebodytypes/HytaleBodyTypes.java:108 | a text whose first and last characters are above U+0020 is returned unchanged |
| `Text.Lower` | src/main/java/com/maxello/hytalebodytypes/HBTCommand.java:69 | same length, each character lower-cased |
| `ChatUi.FindMethodFrom` | src/main/java/com/maxello/hytalebodytypes/ChatUi.java:152-162 | from a position on, the loop returns either the fallback it was given or a compatible method at or after that position, and the fallback when no method from there on is compatible |
| `ChatUi.FirstPreferred` | src/main/java/com/maxello/hytalebodytypes/ChatUi.java:152-158 | when some compatible method from a position on has a hinted name, the loop returns the first such method |
| `ChatUi.LastCompatible` | src/main/java/com/maxello/hytalebodytypes/ChatUi.java:152-162 | when no method from a position on has a hinted name but some is compatible, the loop returns the last compatible one |
| `ChatUi.FindMethod` | src/main/java/com/maxello/hytalebodytypes/ChatUi.java:148-163 | returns the first two-parameter method that accepts the types and whose lower-cased name contains a lower-cased hint; failing that, the last compatible method; None exactly when no method is compatible |
| `ChatUi.FindConstantFrom` | src/main/java/com/maxello/hytalebodytypes/ChatUi.java:138-145 | the loop from a position on returns the first constant whose name equals a target ignoring case |
| `ChatUi.FindEnumConstant` | src/main/java/com/maxello/hytalebodytypes/ChatUi.java:134-146 | returns the first constant in declaration order whose name equals a target ignoring case; None when there are no constants or none matches |
| `ChatUi.AnyConstant` | src/main/java/com/maxello/hytalebodytypes/ChatUi.java:122-128 | the loop over the constants finds a match exactly when some constant's name equals a target ignoring case |
| `ChatUi.HasAnyEnumConstant` | src/main/java/com/maxello/hytalebodytypes/ChatUi.java:118-132 | true exactly when getEnumConstants is non-null and some constant's name equals a target ignoring case |
| `ChatUi.HasAnyIffFound` | src/main/java/com/maxello/hytalebodytypes/ChatUi.java:118-146 | hasAnyEnumConstant holds exactly when findEnumConstant finds a constant |
| `ChatUi.FindEnumFrom` | src/main/java/com/maxello/hytalebodytypes/ChatUi.java:107-111 | the loop from a position on returns the first enum with a target constant |
| `ChatUi.FindEnumContaining` | src/main/java/com/maxello/hytalebodytypes/ChatUi.java:105-116 | returns the first declared inner class that is an enum with a target constant; None exactly when no declared class qualifies; nothing outside the declared classes is looked at |
| `ChatUi.Resolve` | src/main/java/com/maxello/hytalebodytypes/ChatUi.java:174 | getMethod finds a method with exactly that name and those parameter types, and fails exactly when there is none |
| `ChatUi.TryInvoke` | src/main/java/com/maxello/hytalebodytypes/ChatUi.java:172-180 | true exactly when a method with that name and exactly those parameter types exists and invoking it returns normally |
| `ChatUi.TryInvokeFrom` | src/main/java/com/maxello/hytalebodytypes/ChatUi.java:166-168 | the loop from a position on stops at the first candidate that succeeds |
| `ChatUi.TryInvokeAny` | src/main/java/com/maxello/hytalebodytypes/ChatUi.java:165-170 | returns the first candidate that succeeds, with every earlier one failed; reports failure exactly when every candidate failed |
| `ChatUi.AttemptedOrder` | src/main/java/com/maxello/hytalebodytypes/ChatUi.java:165-170 | among distinct candidates, one is attempted exactly when every candidate before it failed |
| `ChatUi.AttachRunCommandClick` | src/main/java/com/maxello/hytalebodytypes/ChatUi.java:83-103 | gives up without an enum exactly when no declared enum has a run-command constant; otherwise it uses the enum findEnumContaining returns; "no method" means no compatible (enum, String) method; an invocation uses the method findMethod picks, and its success is that method's |
| `ChatUi.ConstantAlwaysFound` | src/main/java/com/maxello/hytalebodytypes/ChatUi.java:86-90 | the constant lookup never fails after the enum lookup succeeded |
| `ChatUi.DiagnosticMethods` | src/main/java/com/maxello/hytalebodytypes/ChatUi.java:186-193 | lists exactly the methods whose lower-cased name mentions click, hover, command or action |
| `ChatUi.Listed` | src/main/java/com/maxello/hytalebodytypes/ChatUi.java:188-193 | the filtered list is no longer than the method list |
| `ChatUi.ListedMembers` | src/main/java/com/maxello/hytalebodytypes/ChatUi.java:188-193 | a method is listed exactly when it is among the methods and passes the filter |
| `ChatUi.Positions` | src/main/java/com/maxello/hytalebodytypes/ChatUi.java:188-190 | every reported position lies in the method list |
| `ChatUi.PositionsSpec` | src/main/java/com/maxello/hytalebodytypes/ChatUi.java:188-190 | the positions are those of methods passing the filter, strictly increasing, and every such position is included |
| `ChatUi.ListedInOrder` | src/main/java/com/maxello/hytalebodytypes/ChatUi.java:188-193 | the filtered list keeps the methods' order and duplicates: its k-th entry is the method at the k-th passing position |
| `ChatUi.DiagnosticInOrder` | src/main/java/com/maxello/hytalebodytypes/ChatUi.java:188-193 | the diagnostic list keeps getMethods order and duplicates: its k-th entry is the method at the k-th qualifying position |
| `ChatUi.DebugLogOnce` | src/main/java/com/maxello/hytalebodytypes/ChatUi.java:182-197 | the latch is set afterwards; the list is printed exactly when the latch was clear, and it is the diagnostic list |
| `ChatUi.HoverTried` | src/main/java/com/maxello/hytalebodytypes/ChatUi.java:23-40 | hover is always tried; onHover only after hover failed; hoverText(String) only after both failed; nothing but these three calls is tried |
| `ChatUi.RunCommandClick` | src/main/java/com/maxello/hytalebodytypes/ChatUi.java:43-70 | the by-name list is tried exactly when the enum path failed, and nothing is tried by name when it succeeded; clickable exactly when either path succeeded; the diagnostic is printed exactly when both failed and the latch was clear; the latch is set afterwards whenever both failed |
| `ChatUi.RunCommandClickOrder` | src/main/java/com/maxello/hytalebodytypes/ChatUi.java:48-64 | the names are tried in order and the attempts stop at the first name that succeeds: a name is tried exactly when the enum path failed and every earlier name failed |
| `ChatUi.Button` | src/main/java/com/maxello/hytalebodytypes/ChatUi.java:14-73 | the click step runs exactly when a command is given; the diagnostic is printed only when every click path failed and the latch was clear; the latch is set afterwards exactly when it was set before or every click path failed |
| `ChatUi.ButtonColor` | src/main/java/com/maxello/hytalebodytypes/ChatUi.java:17-20 | color(String) is attempted exactly when the colour is non-null and non-empty |
| `ChatUi.ButtonHover` | src/main/java/com/maxello/hytalebodytypes/ChatUi.java:22-40 | hover runs exactly when hover text is given; onHover only after hover failed; hoverText only after hover and onHover both failed |
| `ChatUi.ButtonClick` | src/main/java/com/maxello/hytalebodytypes/ChatUi.java:42-65 | the by-name click list is tried exactly when a command is given and the enum path failed, and no entry of it is tried otherwise; clickable exactly when one of the two paths succeeded |
| `ChatUi.ButtonTried` | src/main/java/com/maxello/hytalebodytypes/ChatUi.java:14-73 | button attempts the colour call, then the hover calls, then the click step's calls, each only for a given argument |
| `ChatUi.ButtonClickOrder` | src/main/java/com/maxello/hytalebodytypes/ChatUi.java:42-65 | a by-name click is tried exactly when a command is given, the enum path failed and every earlier name failed |
| `ChatUi.Run` | src/main/java/com/maxello/hytalebodytypes/ChatUi.java:12 | successive calls share the static latch: the first step starts from the given latch and each later step from the latch the previous one left; one outcome per request |
| `ChatUi.Buttons` | src/main/java/com/maxello/hytalebodytypes/ChatUi.java:12-73 | the same for button itself: each button call starts from the latch the previous call left |
| `ChatUi.SilentOnceLatched` | src/main/java/com/maxello/hytalebodytypes/ChatUi.java:182-183 | once the latch is set, no later button prints the diagnostic |
| `ChatUi.LoggedAtMostOnce` | src/main/java/com/maxello/hytalebodytypes/ChatUi.java:12 | over any run of steps that print only with the latch clear and set it when they print, at most one step prints |
| `ChatUi.DiagnosticAtMostOnce` | src/main/java/com/maxello/hytalebodytypes/ChatUi.java:67-69 | over any sequence of button calls the diagnostic is printed at most once, and never when the latch starts set |
| `Command.Mode` | src/main/java/com/maxello/hytalebodytypes/HBTCommand.java:68-69 | a null mode reads as "status"; any other mode is the argument lower-cased: the same length, equal to it ignoring case, and with no upper-case letter |
| `Command.StatusReply` | src/main/java/com/maxello/hytalebodytypes/HBTCommand.java:94-98 | the reply reads "Hytale Body Types: ON" in #4aff7f when the flag is on, and "Hytale Body Types: OFF" in #ff6b6b when it is off |
| `Command.Execute` | src/main/java/com/maxello/hytalebodytypes/HBTCommand.java:61-102 | on leaves the flag on and off leaves it off; toggle negates it; apply, status and unknown modes leave the state alone; no other player's flag changes; on, off, toggle and status reply with the flag now stored; apply and unknown modes give their fixed replies |
| `Command.CaseInsensitive` | src/main/java/com/maxello/hytalebodytypes/HBTCommand.java:69 | a mode behaves exactly like its lower-cased form, so "ON" is "on" |
| `Command.MissingModeIsStatus` | src/main/java/com/maxello/hytalebodytypes/HBTCommand.java:69 | a missing mode behaves exactly like "status" |
| `Command.OnOffIdempotent` | src/main/java/com/maxello/hytalebodytypes/HBTCommand.java:72-81 | repeating on or off leaves every flag as the first call left it |
| `Page.StatusLabel` | src/main/java/com/maxello/hytalebodytypes/BodyTypePage.java:55-56 | the label reads "Status: ON" in #4aff7f when enabled, and "Status: OFF" in #ff6b6b otherwise |
| `Page.Build` | src/main/java/com/maxello/hytalebodytypes/BodyTypePage.java:53-56 | the label set on opening, and again by refresh, reads "Status: ON" exactly when the player's flag is on |
| `Page.ChatReply` | src/main/java/com/maxello/hytalebodytypes/BodyTypePage.java:117-119 | the chat line reads "HBT: enabled" in #4aff7f when the flag is on, and "HBT: disabled" in #ff6b6b when it is off |
| `Page.Action` | src/main/java/com/maxello/hytalebodytypes/BodyTypePage.java:96 | a null action reads as the empty string; any other action is used as given |
| `Page.HandleDataEvent` | src/main/java/com/maxello/hytalebodytypes/BodyTypePage.java:88-136 | nothing changes without the player component; Enable leaves the flag on and Disable leaves it off; Toggle negates it; other actions leave the state alone and send nothing; only Close closes the page; no other player's flag changes; after a change the chat reports the new flag and the refreshed label equals the one build shows |
| `Page.CaseSensitive` | src/main/java/com/maxello/hytalebodytypes/BodyTypePage.java:98-126 | actions match exactly: every other capitalisation of a button name, such as "enable", "TOGGLE" or "close", is ignored |
| `Page.EnableIsOn` | src/main/java/com/maxello/hytalebodytypes/BodyTypePage.java:99-105 | the Enable button changes the state exactly as `/bodytype on` does |
| `Page.DisableIsOff` | src/main/java/com/maxello/hytalebodytypes/BodyTypePage.java:106-112 | the Disable button changes the state exactly as `/bodytype off` does |
| `Page.ToggleIsToggle` | src/main/java/com/maxello/hytalebodytypes/BodyTypePage.java:113-121 | the Toggle button changes the state exactly as `/bodytype toggle` does |

## Left out

- File I/O is reduced to the `FileState` and `WriteOutcome` values:
  - directory creation (HytaleBodyTypes.java:33-38);
  - the temporary file and the atomic move (HytaleBodyTypes.java:144-150);
  - UTF-8 decoding; a file that cannot be decoded counts as `Unreadable`.
  A write either replaces the file's contents wholesale or changes nothing.
- The `dataFile == null` guards (HytaleBodyTypes.java:101, 128) are not modelled. Setup assigns the path before anything loads or saves.
- Concurrency is not modelled: the ConcurrentHashMap and the non-atomic read-then-put in toggle. The store is one sequential map. The map's iteration order is an input (`Written(order)`, any enumeration of the keys).
- Java reflection is not modelled: getMethods, getMethod, invoke, getEnumConstants and getDeclaredClasses. In its place are descriptor lists and an abstract success predicate per method.
  - getMethod picks the first method with the exact name and parameter types. Bridge methods that differ only in return type are not distinguished.
  - The arguments passed to the invoked methods are not recorded.
  - Effects of a failed invocation on the message are not modelled.
- Host API objects are not modelled: Message, PlayerRef, the entity store, the page manager, the UI builders, event bindings, command registration and sendMessage. Only the reply and label texts with their colours are kept.
- The appearance override `applyBodyCharacteristic` is an identity hook on the plugin state. Its definition is not part of this model. `debugPlayerCosmetics` is not part of this model either.
- The base `/bodytype` command, which opens the page, is not modelled. buildHeaderMessage, buildButtonsMessage, spacer and buildRawError are not modelled either. They only compose host messages.
- The lines the diagnostic prints (method name and parameter types) are not modelled. The model records which methods are listed, in order.
- Lower-casing, equalsIgnoreCase and the name-hint match are ASCII-only.
  - Every literal the program compares against is ASCII. equalsIgnoreCase is locale-independent. The model agrees with Java wherever the other string is ASCII and the default locale is not Turkish or Azeri.
  - toLowerCase uses the default locale. Under a Turkish or Azeri locale, `I` lower-cases to a dotless `ı`. A method named `setCLICK` would then match no hint in Java, while the model matches it against `click`. The diagnostic filter differs in the same way. A non-Turkic default locale is assumed. The command modes are unaffected, since none of them contains an `i`.
  - A non-ASCII character that Java folds onto an ASCII letter is not modelled. Examples are the Kelvin sign, which lower-cases to `k`, and the dotted capital I.
- Uuids.FromString models the parse only on the strings the pattern can deliver: hexadecimal digits and dashes. Long.parseLong's sign handling and non-ASCII digits never arise there.
- Uuids.FromString follows the JDK's general path. The fast path of newer JDKs for 36-character strings gives the same value whenever it succeeds, and otherwise falls back to the general path.
- Uuids.FromString states only the length and dash-count conditions for acceptance in its own contract. Its agreement with toString is the separate lemma FromStringToString.
- StateFile.MatchAt states the shape of a match in its contract. Its behaviour on the serialiser's own output is stated by ScanQuoted and ScanSerialized.
- Full JSON (RFC 8259) is not modelled: the loader is a regular-expression scan, and the model follows the scan.
