/** The reflective probing behind clickable chat buttons, reduced to the choices it
    makes: the host API is a list of method descriptors and a list of classes declared
    in the message class, and whether a call returns normally is an abstract fact
    about the host. */
module ChatUi {
  import opened Optional
  import opened Text

  /** A class object as far as the probes compare them. */
  datatype TypeTag = StringType | MessageType | Named(name: string)

  /** A public method: its name and parameter types. */
  datatype MethodDesc = MethodDesc(name: string, params: seq<TypeTag>)

  /** A class declared inside the message class; `constants` is what
      getEnumConstants returns, None standing for null. */
  datatype ClassDesc = ClassDesc(tag: TypeTag, isEnum: bool, constants: Option<seq<string>>)

  /** The message class as reflection sees it. `methods` is getMethods() in its
      iteration order; `assignable(a, b)` is a.isAssignableFrom(b); `succeeds(m)`
      says that invoking `m` on the message returns without throwing. */
  datatype Host = Host(
    methods: seq<MethodDesc>,
    declared: seq<ClassDesc>,
    assignable: (TypeTag, TypeTag) -> bool,
    succeeds: MethodDesc -> bool)

  /** A getMethod(name, parameterTypes) request. */
  datatype Call = Call(name: string, sig: seq<TypeTag>)

  // ---------- findMethod ----------

  /** Two parameters, the first accepting `p0` and the second exactly `p1`. */
  predicate Compatible(h: Host, m: MethodDesc, p0: TypeTag, p1: TypeTag)
  {
    |m.params| == 2 && h.assignable(m.params[0], p0) && m.params[1] == p1
  }

  /** The lower-cased name contains some lower-cased hint. */
  predicate Hinted(name: string, hints: seq<string>)
  {
    exists hint | hint in hints :: Contains(Lower(name), Lower(hint))
  }

  predicate Preferred(h: Host, m: MethodDesc, p0: TypeTag, p1: TypeTag, hints: seq<string>)
  {
    Compatible(h, m, p0, p1) && Hinted(m.name, hints)
  }

  /** The loop of findMethod from position `i`, with `fallback` the last compatible
      method seen so far. */
  function FindMethodFrom(h: Host, p0: TypeTag, p1: TypeTag, hints: seq<string>, i: nat, fallback: Option<nat>): (r: Option<nat>)
    requires i <= |h.methods|
    ensures r == fallback || (r.Some? && i <= r.value < |h.methods| && Compatible(h, h.methods[r.value], p0, p1))
    ensures (forall j | i <= j < |h.methods| :: !Compatible(h, h.methods[j], p0, p1)) ==> r == fallback
    decreases |h.methods| - i
  {
    if i == |h.methods| then fallback
    else if Compatible(h, h.methods[i], p0, p1) then
      if Hinted(h.methods[i].name, hints) then Some(i)
      else FindMethodFrom(h, p0, p1, hints, i + 1, Some(i))
    else FindMethodFrom(h, p0, p1, hints, i + 1, fallback)
  }

  /** When some method from `i` on is preferred, the loop returns the first of them. */
  lemma {:induction false} FirstPreferred(h: Host, p0: TypeTag, p1: TypeTag, hints: seq<string>, i: nat, fallback: Option<nat>)
    requires i <= |h.methods|
    requires exists j | i <= j < |h.methods| :: Preferred(h, h.methods[j], p0, p1, hints)
    ensures var r := FindMethodFrom(h, p0, p1, hints, i, fallback);
      && r.Some? && i <= r.value < |h.methods|
      && Preferred(h, h.methods[r.value], p0, p1, hints)
      && forall j | i <= j < r.value :: !Preferred(h, h.methods[j], p0, p1, hints)
    decreases |h.methods| - i
  {
    if !Preferred(h, h.methods[i], p0, p1, hints) {
      var f := if Compatible(h, h.methods[i], p0, p1) then Some(i) else fallback;
      FirstPreferred(h, p0, p1, hints, i + 1, f);
    }
  }

  /** When no method from `i` on is preferred but one is compatible, the loop returns
      the last compatible one. */
  lemma {:induction false} LastCompatible(h: Host, p0: TypeTag, p1: TypeTag, hints: seq<string>, i: nat, fallback: Option<nat>)
    requires i <= |h.methods|
    requires forall j | i <= j < |h.methods| :: !Preferred(h, h.methods[j], p0, p1, hints)
    requires exists j | i <= j < |h.methods| :: Compatible(h, h.methods[j], p0, p1)
    ensures var r := FindMethodFrom(h, p0, p1, hints, i, fallback);
      && r.Some? && i <= r.value < |h.methods|
      && Compatible(h, h.methods[r.value], p0, p1)
      && forall j | r.value < j < |h.methods| :: !Compatible(h, h.methods[j], p0, p1)
    decreases |h.methods| - i
  {
    if Compatible(h, h.methods[i], p0, p1) {
      if exists j | i + 1 <= j < |h.methods| :: Compatible(h, h.methods[j], p0, p1) {
        LastCompatible(h, p0, p1, hints, i + 1, Some(i));
      }
    } else {
      LastCompatible(h, p0, p1, hints, i + 1, fallback);
    }
  }

  /** Whichever case holds over all methods, the loop from the start meets it. */
  lemma FindMethodCases(h: Host, p0: TypeTag, p1: TypeTag, hints: seq<string>)
    ensures var r := FindMethodFrom(h, p0, p1, hints, 0, None);
      && ((exists j | 0 <= j < |h.methods| :: Preferred(h, h.methods[j], p0, p1, hints)) ==>
            r.Some? && r.value < |h.methods| && Preferred(h, h.methods[r.value], p0, p1, hints)
            && forall j | 0 <= j < r.value :: !Preferred(h, h.methods[j], p0, p1, hints))
      && ((forall j | 0 <= j < |h.methods| :: !Preferred(h, h.methods[j], p0, p1, hints))
          && (exists j | 0 <= j < |h.methods| :: Compatible(h, h.methods[j], p0, p1)) ==>
            r.Some? && r.value < |h.methods| && Compatible(h, h.methods[r.value], p0, p1)
            && forall j | r.value < j < |h.methods| :: !Compatible(h, h.methods[j], p0, p1))
  {
    if exists j | 0 <= j < |h.methods| :: Preferred(h, h.methods[j], p0, p1, hints) {
      FirstPreferred(h, p0, p1, hints, 0, None);
    } else if exists j | 0 <= j < |h.methods| :: Compatible(h, h.methods[j], p0, p1) {
      LastCompatible(h, p0, p1, hints, 0, None);
    }
  }

  /** findMethod: the index of the first compatible method whose name matches a hint,
      else of the last compatible method, else None. */
  function FindMethod(h: Host, p0: TypeTag, p1: TypeTag, hints: seq<string>): (r: Option<nat>)
    ensures r.Some? ==> r.value < |h.methods| && Compatible(h, h.methods[r.value], p0, p1)
    ensures (exists j | 0 <= j < |h.methods| :: Preferred(h, h.methods[j], p0, p1, hints)) ==>
      && r.Some? && Preferred(h, h.methods[r.value], p0, p1, hints)
      && forall j | 0 <= j < r.value :: !Preferred(h, h.methods[j], p0, p1, hints)
    ensures (forall j | 0 <= j < |h.methods| :: !Preferred(h, h.methods[j], p0, p1, hints)) && r.Some? ==>
      forall j | r.value < j < |h.methods| :: !Compatible(h, h.methods[j], p0, p1)
    ensures r.None? <==> forall j | 0 <= j < |h.methods| :: !Compatible(h, h.methods[j], p0, p1)
  {
    FindMethodCases(h, p0, p1, hints);
    FindMethodFrom(h, p0, p1, hints, 0, None)
  }

  // ---------- Enum probes ----------

  /** The constant's name equals some target, ignoring case. */
  predicate NamesAny(n: string, targets: seq<string>)
  {
    exists t | t in targets :: EqualsIgnoreCase(n, t)
  }

  /** The loop of findEnumConstant over the constants from position `k`. */
  function FindConstantFrom(consts: seq<string>, targets: seq<string>, k: nat): (r: Option<nat>)
    requires k <= |consts|
    ensures r.Some? ==> k <= r.value < |consts| && NamesAny(consts[r.value], targets)
    ensures r.Some? ==> forall j | k <= j < r.value :: !NamesAny(consts[j], targets)
    ensures r.None? ==> forall j | k <= j < |consts| :: !NamesAny(consts[j], targets)
    decreases |consts| - k
  {
    if k == |consts| then None
    else if NamesAny(consts[k], targets) then Some(k)
    else FindConstantFrom(consts, targets, k + 1)
  }

  /** findEnumConstant: the index of the first constant, in declaration order, that
      names a target; None when there are no constants or none matches. */
  function FindEnumConstant(c: ClassDesc, targets: seq<string>): (r: Option<nat>)
    ensures r.Some? ==> c.constants.Some? && r.value < |c.constants.value|
    ensures r.Some? ==> NamesAny(c.constants.value[r.value], targets)
    ensures r.Some? ==> forall j | 0 <= j < r.value :: !NamesAny(c.constants.value[j], targets)
    ensures r.None? && c.constants.Some? ==> forall j | 0 <= j < |c.constants.value| :: !NamesAny(c.constants.value[j], targets)
  {
    match c.constants
    case None => None
    case Some(consts) => FindConstantFrom(consts, targets, 0)
  }

  /** The loop of hasAnyEnumConstant, walking down the list. */
  function AnyConstant(consts: seq<string>, targets: seq<string>): (b: bool)
    ensures b <==> exists k | 0 <= k < |consts| :: NamesAny(consts[k], targets)
  {
    if |consts| == 0 then false
    else
      var b := NamesAny(consts[0], targets) || AnyConstant(consts[1..], targets);
      assert forall k | 1 <= k < |consts| :: consts[k] == consts[1..][k - 1];
      b
  }

  /** hasAnyEnumConstant: some constant names a target; false for null constants. */
  function HasAnyEnumConstant(c: ClassDesc, targets: seq<string>): (b: bool)
    ensures b <==> c.constants.Some? && exists k | 0 <= k < |c.constants.value| :: NamesAny(c.constants.value[k], targets)
  {
    c.constants.Some? && AnyConstant(c.constants.value, targets)
  }

  /** The two probes agree: hasAnyEnumConstant holds exactly when findEnumConstant
      finds something. */
  lemma HasAnyIffFound(c: ClassDesc, targets: seq<string>)
    ensures HasAnyEnumConstant(c, targets) <==> FindEnumConstant(c, targets).Some?
  {
  }

  predicate HasTarget(c: ClassDesc, targets: seq<string>)
  {
    c.isEnum && HasAnyEnumConstant(c, targets)
  }

  function FindEnumFrom(declared: seq<ClassDesc>, targets: seq<string>, k: nat): (r: Option<nat>)
    requires k <= |declared|
    ensures r.Some? ==> k <= r.value < |declared| && HasTarget(declared[r.value], targets)
    ensures r.Some? ==> forall j | k <= j < r.value :: !HasTarget(declared[j], targets)
    ensures r.None? ==> forall j | k <= j < |declared| :: !HasTarget(declared[j], targets)
    decreases |declared| - k
  {
    if k == |declared| then None
    else if HasTarget(declared[k], targets) then Some(k)
    else FindEnumFrom(declared, targets, k + 1)
  }

  /** findEnumContaining: the first declared inner class that is an enum with a target
      constant. Only the declared classes are searched. */
  function FindEnumContaining(declared: seq<ClassDesc>, targets: seq<string>): (r: Option<nat>)
    ensures r.Some? ==> r.value < |declared| && declared[r.value].isEnum
    ensures r.Some? ==> HasAnyEnumConstant(declared[r.value], targets)
    ensures r.Some? ==> forall j | 0 <= j < r.value :: !HasTarget(declared[j], targets)
    ensures r.None? <==> forall j | 0 <= j < |declared| :: !HasTarget(declared[j], targets)
  {
    FindEnumFrom(declared, targets, 0)
  }

  // ---------- tryInvoke / tryInvokeAny ----------

  /** getMethod(name, sig): a public method with that name and exactly those
      parameter types. */
  function Resolve(ms: seq<MethodDesc>, c: Call): (r: Option<nat>)
    ensures r.Some? ==> r.value < |ms| && ms[r.value].name == c.name && ms[r.value].params == c.sig
    ensures r.None? <==> forall j | 0 <= j < |ms| :: !(ms[j].name == c.name && ms[j].params == c.sig)
    decreases |ms|
  {
    if |ms| == 0 then None
    else if ms[0].name == c.name && ms[0].params == c.sig then Some(0)
    else match Resolve(ms[1..], c)
      case None => None
      case Some(k) => Some(k + 1)
  }

  /** tryInvoke: true when the method exists and the invocation returns normally. */
  function TryInvoke(h: Host, c: Call): (ok: bool)
    ensures ok <==> MethodDesc(c.name, c.sig) in h.methods && h.succeeds(MethodDesc(c.name, c.sig))
  {
    match Resolve(h.methods, c)
    case None => false
    case Some(k) => h.succeeds(h.methods[k])
  }

  function TryInvokeFrom(h: Host, cs: seq<Call>, i: nat): (r: Option<nat>)
    requires i <= |cs|
    ensures r.Some? ==> i <= r.value < |cs| && TryInvoke(h, cs[r.value])
    ensures r.Some? ==> forall j | i <= j < r.value :: !TryInvoke(h, cs[j])
    ensures r.None? ==> forall j | i <= j < |cs| :: !TryInvoke(h, cs[j])
    decreases |cs| - i
  {
    if i == |cs| then None
    else if TryInvoke(h, cs[i]) then Some(i)
    else TryInvokeFrom(h, cs, i + 1)
  }

  /** tryInvokeAny: the index of the first candidate that succeeds, None when all
      fail. */
  function TryInvokeAny(h: Host, cs: seq<Call>): (r: Option<nat>)
    ensures r.Some? ==> r.value < |cs| && TryInvoke(h, cs[r.value])
    ensures r.Some? ==> forall j | 0 <= j < r.value :: !TryInvoke(h, cs[j])
    ensures r.None? <==> forall j | 0 <= j < |cs| :: !TryInvoke(h, cs[j])
  {
    TryInvokeFrom(h, cs, 0)
  }

  /** The candidates tryInvokeAny actually attempted: up to and including the winner. */
  function Attempted(cs: seq<Call>, r: Option<nat>): (tried: seq<Call>)
    requires r.Some? ==> r.value < |cs|
    ensures forall c | c in tried :: c in cs
  {
    if r.Some? then cs[..r.value + 1] else cs
  }

  /** With distinct candidates, tryInvokeAny attempts a candidate exactly when
      every candidate before it failed. */
  lemma AttemptedOrder(h: Host, cs: seq<Call>)
    requires forall a, b | 0 <= a < b < |cs| :: cs[a] != cs[b]
    ensures forall j | 0 <= j < |cs| ::
      cs[j] in Attempted(cs, TryInvokeAny(h, cs)) <==> forall i | 0 <= i < j :: !TryInvoke(h, cs[i])
  {
    var r := TryInvokeAny(h, cs);
    forall j | 0 <= j < |cs|
      ensures cs[j] in Attempted(cs, r) <==> forall i | 0 <= i < j :: !TryInvoke(h, cs[i])
    {
      if r.Some? {
        var tried := cs[..r.value + 1];
        if j <= r.value {
          assert tried[j] == cs[j];
        } else {
          assert forall k | 0 <= k < |tried| :: tried[k] != cs[j];
        }
      }
    }
  }

  // ---------- attachRunCommandClick ----------

  const RunCommandNames: seq<string> := ["RUN_COMMAND", "RUNCOMMAND", "EXECUTE_COMMAND"]
  const ClickHints: seq<string> := ["click", "onClick", "setClick", "action", "withClick"]

  /** How the enum-based click path ended; `clickEnum` is the index of the enum
      class found among the declared classes. */
  datatype Click =
    | NoClickEnum
    | NoConstant(clickEnum: nat)
    | NoClickMethod(clickEnum: nat)
    | Invoked(clickEnum: nat, best: nat, ok: bool)
  {
    predicate Ok() { Invoked? && ok }
  }

  /** attachRunCommandClick: find the click-action enum and its run-command constant,
      then the best (enum, String) method, and invoke it. */
  function AttachRunCommandClick(h: Host): (r: Click)
    ensures r.NoClickEnum? <==> forall j | 0 <= j < |h.declared| :: !HasTarget(h.declared[j], RunCommandNames)
    ensures !r.NoClickEnum? ==> r.clickEnum < |h.declared| && HasTarget(h.declared[r.clickEnum], RunCommandNames)
    ensures r.NoClickMethod? ==> forall j | 0 <= j < |h.methods| :: !Compatible(h, h.methods[j], h.declared[r.clickEnum].tag, StringType)
    ensures r.Invoked? ==> r.best < |h.methods| && Compatible(h, h.methods[r.best], h.declared[r.clickEnum].tag, StringType)
    ensures r.Invoked? ==> r.ok == h.succeeds(h.methods[r.best])
    ensures !r.NoClickEnum? ==> FindEnumContaining(h.declared, RunCommandNames) == Some(r.clickEnum)
    ensures r.Invoked? ==> FindMethod(h, h.declared[r.clickEnum].tag, StringType, ClickHints) == Some(r.best)
  {
    match FindEnumContaining(h.declared, RunCommandNames)
    case None => NoClickEnum
    case Some(e) =>
      match FindEnumConstant(h.declared[e], RunCommandNames)
      case None => NoConstant(e)
      case Some(_) =>
        match FindMethod(h, h.declared[e].tag, StringType, ClickHints)
        case None => NoClickMethod(e)
        case Some(m) => Invoked(e, m, h.succeeds(h.methods[m]))
  }

  /** The enum found always has the constant: the second lookup never fails. */
  lemma ConstantAlwaysFound(h: Host)
    ensures !AttachRunCommandClick(h).NoConstant?
  {
    match FindEnumContaining(h.declared, RunCommandNames)
    case None =>
    case Some(e) =>
      HasAnyIffFound(h.declared[e], RunCommandNames);
  }

  // ---------- debugLogOnce ----------

  /** The methods the diagnostic lists: lower-cased name mentions a click, a hover,
      a command or an action. */
  predicate IsDiagnostic(m: MethodDesc)
  {
    var n := Lower(m.name);
    Contains(n, "click") || Contains(n, "hover") || Contains(n, "command") || Contains(n, "action")
  }

  /** The methods of `ms` that `keep` selects, in their order, duplicates kept. */
  function Listed(ms: seq<MethodDesc>, keep: MethodDesc -> bool): (r: seq<MethodDesc>)
    ensures |r| <= |ms|
  {
    if |ms| == 0 then []
    else if keep(ms[0]) then [ms[0]] + Listed(ms[1..], keep)
    else Listed(ms[1..], keep)
  }

  /** A method is listed exactly when it is in `ms` and selected. */
  lemma {:induction false} ListedMembers(ms: seq<MethodDesc>, keep: MethodDesc -> bool)
    ensures forall m :: m in Listed(ms, keep) <==> m in ms && keep(m)
    decreases |ms|
  {
    if |ms| > 0 {
      ListedMembers(ms[1..], keep);
      assert ms == [ms[0]] + ms[1..];
    }
  }

  /** The positions in `ms` from `i` on of the methods `keep` selects, in
      increasing order. */
  function Positions(ms: seq<MethodDesc>, keep: MethodDesc -> bool, i: nat): (ps: seq<nat>)
    requires i <= |ms|
    ensures forall k | 0 <= k < |ps| :: i <= ps[k] < |ms|
    decreases |ms| - i
  {
    if i == |ms| then []
    else if keep(ms[i]) then [i] + Positions(ms, keep, i + 1)
    else Positions(ms, keep, i + 1)
  }

  /** The positions are selected ones, strictly increasing, and every selected
      position from `i` on is among them. */
  lemma {:induction false} PositionsSpec(ms: seq<MethodDesc>, keep: MethodDesc -> bool, i: nat)
    requires i <= |ms|
    ensures forall k | 0 <= k < |Positions(ms, keep, i)| :: keep(ms[Positions(ms, keep, i)[k]])
    ensures forall a, b | 0 <= a < b < |Positions(ms, keep, i)| :: Positions(ms, keep, i)[a] < Positions(ms, keep, i)[b]
    ensures forall j | i <= j < |ms| && keep(ms[j]) :: j in Positions(ms, keep, i)
    decreases |ms| - i
  {
    if i < |ms| {
      PositionsSpec(ms, keep, i + 1);
    }
  }

  /** The selected methods are listed in order: the k-th entry is the method at the
      k-th selected position. */
  lemma {:induction false} ListedInOrder(ms: seq<MethodDesc>, keep: MethodDesc -> bool, i: nat)
    requires i <= |ms|
    ensures |Listed(ms[i..], keep)| == |Positions(ms, keep, i)|
    ensures forall k | 0 <= k < |Positions(ms, keep, i)| ::
      Listed(ms[i..], keep)[k] == ms[Positions(ms, keep, i)[k]]
    decreases |ms| - i
  {
    if i < |ms| {
      ListedInOrder(ms, keep, i + 1);
      var t := ms[i..];
      assert t[0] == ms[i] && t[1..] == ms[i + 1..];
      var rest := Listed(ms[i + 1..], keep);
      var qs := Positions(ms, keep, i + 1);
      if keep(ms[i]) {
        var d := Listed(t, keep);
        var ps := Positions(ms, keep, i);
        assert d == [ms[i]] + rest;
        assert ps == [i] + qs;
        forall k | 0 <= k < |ps| ensures d[k] == ms[ps[k]] {
          if k > 0 {
            assert d[k] == rest[k - 1] && ps[k] == qs[k - 1];
          }
        }
      } else {
        assert Listed(t, keep) == rest;
        assert Positions(ms, keep, i) == qs;
      }
    }
  }

  /** The diagnostic's list. */
  function DiagnosticMethods(ms: seq<MethodDesc>): (r: seq<MethodDesc>)
    ensures |r| <= |ms|
    ensures forall m :: m in r <==> m in ms && IsDiagnostic(m)
  {
    ListedMembers(ms, IsDiagnostic);
    Listed(ms, IsDiagnostic)
  }

  /** The diagnostic lists the qualifying methods in getMethods order, duplicates
      kept: its k-th entry is the method at the k-th qualifying position. */
  lemma DiagnosticInOrder(ms: seq<MethodDesc>)
    ensures |DiagnosticMethods(ms)| == |Positions(ms, IsDiagnostic, 0)|
    ensures forall k | 0 <= k < |Positions(ms, IsDiagnostic, 0)| ::
      DiagnosticMethods(ms)[k] == ms[Positions(ms, IsDiagnostic, 0)[k]]
  {
    ListedInOrder(ms, IsDiagnostic, 0);
    assert ms[0..] == ms;
  }

  /** debugLogOnce: compareAndSet(false, true) on the latch; only the call that flips
      it prints the list. */
  function DebugLogOnce(ms: seq<MethodDesc>, latch: bool): (r: (Option<seq<MethodDesc>>, bool))
    ensures r.1
    ensures r.0.Some? <==> !latch
    ensures r.0.Some? ==> r.0.value == DiagnosticMethods(ms)
  {
    if latch then (None, true) else (Some(DiagnosticMethods(ms)), true)
  }

  // ---------- button ----------

  const ColorCall := Call("color", [StringType])
  const HoverCalls: seq<Call> := [Call("hover", [MessageType]), Call("onHover", [MessageType])]
  const HoverTextCall := Call("hoverText", [StringType])
  const NamedClicks: seq<Call> := [
    Call("runCommand", [StringType]),
    Call("clickRunCommand", [StringType]),
    Call("onClickRunCommand", [StringType]),
    Call("command", [StringType]),
    Call("onClick", [StringType])]

  /** A button request; None stands for a null argument. */
  datatype Request = Request(text: string, hexColor: Option<string>, runCommand: Option<string>, hoverText: Option<string>)

  /** Non-null and non-empty. */
  predicate Given(s: Option<string>)
  {
    s.Some? && |s.value| > 0
  }

  /** The hover step: hover, then onHover, then hoverText(String) when both failed. */
  function HoverTried(h: Host): (tried: seq<Call>)
    ensures HoverCalls[0] in tried
    ensures HoverCalls[1] in tried <==> !TryInvoke(h, HoverCalls[0])
    ensures HoverTextCall in tried <==> !TryInvoke(h, HoverCalls[0]) && !TryInvoke(h, HoverCalls[1])
    ensures forall c | c in tried :: c in HoverCalls || c == HoverTextCall
  {
    var k := TryInvokeAny(h, HoverCalls);
    Attempted(HoverCalls, k) + (if k.None? then [HoverTextCall] else [])
  }

  /** The click step for a non-empty command: the enum-based path, then the by-name
      list when it failed, then the diagnostic when both failed. */
  datatype ClickOutcome = ClickOutcome(
    tried: seq<Call>,
    click: Click,
    clickable: bool,
    diagnostic: Option<seq<MethodDesc>>,
    latch: bool)

  function RunCommandClick(h: Host, latch: bool): (r: ClickOutcome)
    ensures r.click == AttachRunCommandClick(h)
    ensures forall c | c in r.tried :: c in NamedClicks
    ensures NamedClicks[0] in r.tried <==> !r.click.Ok()
    ensures r.click.Ok() ==> r.tried == []
    ensures r.clickable <==> r.click.Ok() || exists j | 0 <= j < |NamedClicks| :: TryInvoke(h, NamedClicks[j])
    ensures r.diagnostic.Some? <==> !r.clickable && !latch
    ensures r.diagnostic.Some? ==> r.diagnostic.value == DiagnosticMethods(h.methods)
    ensures r.latch <==> latch || !r.clickable
  {
    var click := AttachRunCommandClick(h);
    if click.Ok() then ClickOutcome([], click, true, None, latch)
    else
      var named := TryInvokeAny(h, NamedClicks);
      var tried := Attempted(NamedClicks, named);
      if named.Some? then ClickOutcome(tried, click, true, None, latch)
      else
        var logged := DebugLogOnce(h.methods, latch);
        ClickOutcome(tried, click, false, logged.0, logged.1)
  }

  /** The by-name click names are tried in order, and the attempts stop at the first
      name that succeeds. */
  lemma RunCommandClickOrder(h: Host, latch: bool)
    ensures forall j | 0 <= j < |NamedClicks| ::
      NamedClicks[j] in RunCommandClick(h, latch).tried <==>
        !AttachRunCommandClick(h).Ok() && forall i | 0 <= i < j :: !TryInvoke(h, NamedClicks[i])
  {
    AttemptedOrder(h, NamedClicks);
  }

  /** None of the colour and hover calls is on the by-name click list. */
  lemma NotNamedClicks()
    ensures ColorCall !in NamedClicks && HoverTextCall !in NamedClicks
    ensures HoverCalls[0] !in NamedClicks && HoverCalls[1] !in NamedClicks
  {
  }

  /** What button did: the message text, every tryInvoke attempted in order, the
      click step's outcome when there was a command, and the latch afterwards. */
  datatype ButtonOutcome = ButtonOutcome(
    text: string,
    tried: seq<Call>,
    click: Option<ClickOutcome>,
    latch: bool)
  {
    predicate Clickable() { click.Some? && click.value.clickable }
    predicate Logged() { click.Some? && click.value.diagnostic.Some? }
  }

  /** button: colour, hover and click, each only for a non-null, non-empty argument. */
  function Button(h: Host, q: Request, latch: bool): (r: ButtonOutcome)
    ensures r.text == q.text
    ensures r.click.Some? <==> Given(q.runCommand)
    ensures r.Logged() <==> Given(q.runCommand) && !r.Clickable() && !latch
    ensures r.latch <==> latch || (Given(q.runCommand) && !r.Clickable())
  {
    var colorPart := if Given(q.hexColor) then [ColorCall] else [];
    var hoverPart := if Given(q.hoverText) then HoverTried(h) else [];
    if Given(q.runCommand) then
      var c := RunCommandClick(h, latch);
      ButtonOutcome(q.text, colorPart + hoverPart + c.tried, Some(c), c.latch)
    else
      ButtonOutcome(q.text, colorPart + hoverPart, None, latch)
  }

  /** The colour is attempted exactly when a colour is given. */
  lemma ButtonColor(h: Host, q: Request, latch: bool)
    ensures ColorCall in Button(h, q, latch).tried <==> Given(q.hexColor)
  {
    NotNamedClicks();
  }

  /** hover always comes first; onHover only after hover failed; hoverText(String)
      only after both failed. */
  lemma ButtonHover(h: Host, q: Request, latch: bool)
    ensures HoverCalls[0] in Button(h, q, latch).tried <==> Given(q.hoverText)
    ensures HoverCalls[1] in Button(h, q, latch).tried <==> Given(q.hoverText) && !TryInvoke(h, HoverCalls[0])
    ensures HoverTextCall in Button(h, q, latch).tried <==>
      Given(q.hoverText) && !TryInvoke(h, HoverCalls[0]) && !TryInvoke(h, HoverCalls[1])
  {
    NotNamedClicks();
  }

  /** The by-name click list is tried exactly when there is a command and the
      enum-based path failed; the button is clickable when either path worked. */
  lemma ButtonClick(h: Host, q: Request, latch: bool)
    ensures NamedClicks[0] in Button(h, q, latch).tried <==> Given(q.runCommand) && !AttachRunCommandClick(h).Ok()
    ensures forall c | c in NamedClicks && c in Button(h, q, latch).tried ::
      Given(q.runCommand) && !AttachRunCommandClick(h).Ok()
    ensures Button(h, q, latch).Clickable() <==>
      Given(q.runCommand) && (AttachRunCommandClick(h).Ok() || exists j | 0 <= j < |NamedClicks| :: TryInvoke(h, NamedClicks[j]))
  {
    NotNamedClicks();
  }

  /** button's attempts: the colour and hover calls, then the click step's. */
  lemma ButtonTried(h: Host, q: Request, latch: bool)
    ensures Button(h, q, latch).tried ==
      (if Given(q.hexColor) then [ColorCall] else []) + (if Given(q.hoverText) then HoverTried(h) else [])
      + (if Given(q.runCommand) then RunCommandClick(h, latch).tried else [])
  {
  }

  /** The by-name click names are tried in order, and the attempts stop at the
      first name that succeeds. */
  lemma ButtonClickOrder(h: Host, q: Request, latch: bool)
    ensures forall j | 0 <= j < |NamedClicks| ::
      NamedClicks[j] in Button(h, q, latch).tried <==>
        Given(q.runCommand) && !AttachRunCommandClick(h).Ok() && forall i | 0 <= i < j :: !TryInvoke(h, NamedClicks[i])
  {
    NotNamedClicks();
    var tried := Button(h, q, latch).tried;
    var pre := (if Given(q.hexColor) then [ColorCall] else []) + (if Given(q.hoverText) then HoverTried(h) else []);
    var post := if Given(q.runCommand) then RunCommandClick(h, latch).tried else [];
    ButtonTried(h, q, latch);
    RunCommandClickOrder(h, latch);
    forall j | 0 <= j < |NamedClicks|
      ensures NamedClicks[j] in tried <==>
        Given(q.runCommand) && !AttachRunCommandClick(h).Ok() && forall i | 0 <= i < j :: !TryInvoke(h, NamedClicks[i])
    {
      var c := NamedClicks[j];
      assert c !in pre;
      assert c in tried <==> c in post;
    }
  }

  /** Buttons built one after another, the latch carried from each to the next, by
      any step that behaves like button on the latch. */
  function Run(step: (Request, bool) -> ButtonOutcome, qs: seq<Request>, latch: bool): (rs: seq<ButtonOutcome>)
    ensures |rs| == |qs|
    ensures |qs| > 0 ==> rs[0] == step(qs[0], latch)
    ensures forall i | 0 < i < |qs| :: rs[i] == step(qs[i], rs[i - 1].latch)
  {
    if |qs| == 0 then []
    else
      var r := step(qs[0], latch);
      [r] + Run(step, qs[1..], r.latch)
  }

  /** A step prints only when the latch was clear, and sets the latch when it prints. */
  ghost predicate LatchStep(step: (Request, bool) -> ButtonOutcome)
  {
    forall q, l :: step(q, l).Logged() ==> !l && step(q, l).latch
  }

  ghost predicate KeepsLatch(step: (Request, bool) -> ButtonOutcome)
  {
    forall q, l :: l ==> step(q, l).latch
  }

  lemma {:induction false} SilentOnceLatched(step: (Request, bool) -> ButtonOutcome, qs: seq<Request>)
    requires LatchStep(step) && KeepsLatch(step)
    ensures forall i | 0 <= i < |qs| :: !Run(step, qs, true)[i].Logged()
  {
    if |qs| > 0 {
      var rs := Run(step, qs, true);
      var rest := Run(step, qs[1..], step(qs[0], true).latch);
      assert step(qs[0], true).latch;
      SilentOnceLatched(step, qs[1..]);
      forall i | 0 <= i < |qs| ensures !rs[i].Logged() {
        if i > 0 {
          assert rs[i] == rest[i - 1];
        }
      }
    }
  }

  lemma {:induction false} LoggedAtMostOnce(step: (Request, bool) -> ButtonOutcome, qs: seq<Request>, latch: bool)
    requires LatchStep(step) && KeepsLatch(step)
    ensures forall i, j | 0 <= i < j < |qs| :: !(Run(step, qs, latch)[i].Logged() && Run(step, qs, latch)[j].Logged())
    ensures latch ==> forall i | 0 <= i < |qs| :: !Run(step, qs, latch)[i].Logged()
  {
    if latch {
      SilentOnceLatched(step, qs);
    } else if |qs| > 0 {
      var r := step(qs[0], latch);
      var rest := Run(step, qs[1..], r.latch);
      var rs := Run(step, qs, latch);
      LoggedAtMostOnce(step, qs[1..], r.latch);
      forall i, j | 0 <= i < j < |qs| ensures !(rs[i].Logged() && rs[j].Logged()) {
        assert rs[j] == rest[j - 1];
        if i > 0 {
          assert rs[i] == rest[i - 1];
        }
      }
    }
  }

  /** A run of button calls sharing the process-wide latch. */
  function Buttons(h: Host, qs: seq<Request>, latch: bool): (rs: seq<ButtonOutcome>)
    ensures |rs| == |qs|
    ensures |qs| > 0 ==> rs[0] == Button(h, qs[0], latch)
    ensures forall i | 0 < i < |qs| :: rs[i] == Button(h, qs[i], rs[i - 1].latch)
  {
    Run((q, l) => Button(h, q, l), qs, latch)
  }

  /** However many buttons are built, the diagnostic is printed at most once, and
      never once the latch is set. */
  lemma DiagnosticAtMostOnce(h: Host, qs: seq<Request>, latch: bool)
    ensures forall i, j | 0 <= i < j < |qs| :: !(Buttons(h, qs, latch)[i].Logged() && Buttons(h, qs, latch)[j].Logged())
    ensures latch ==> forall i | 0 <= i < |qs| :: !Buttons(h, qs, latch)[i].Logged()
  {
    LoggedAtMostOnce((q, l) => Button(h, q, l), qs, latch);
  }
}
