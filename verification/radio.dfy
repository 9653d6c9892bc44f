/** One option of the group: its keydown and click handlers, the change
    requests they make, and the attributes derived from the group's value. */
module Radio {
  import opened Js
  import opened KeyCodes
  import opened Siblings
  import opened RadioGroup

  /** Whether a handler called `setChecked`, and with what. `Call(Undefined)`
      is a real call that hands `undefined` on; `NoCall` is no call at all. */
  datatype Request<V> = NoCall | Call(arg: Slot<V>)

  /** The effect of one keydown: the request made, and the handler's `flag`,
      which when set makes it call both `stopPropagation` and
      `preventDefault`. */
  datatype KeyOutcome<V> = KeyOutcome(request: Request<V>, flag: bool)

  /** `handleKeyDown` for the option whose value is `own`. */
  function HandleKeyDown<V(==)>(ctx: GroupContext<V>, own: V, keyCode: int): (r: KeyOutcome<V>)
    // the event is suppressed exactly for the six handled codes, and exactly when setChecked is called
    ensures r.flag <==> keyCode in HandledCodes
    ensures r.flag <==> r.request.Call?
    // Space and Return select the option itself
    ensures keyCode in {SPACE, RETURN} ==> r.request == Call(Defined(own))
    // Up and Left: the previous sibling, the last one from the first position
    ensures keyCode in {UP, LEFT} && |ctx.otherRadioValues| > 0 && own == ctx.otherRadioValues[0] ==>
              r.request == Call(Defined(ctx.otherRadioValues[LastIndex(ctx.otherRadioValues)]))
    ensures keyCode in {UP, LEFT} && 0 < IndexOf(ctx.otherRadioValues, own) ==>
              r.request == Call(Defined(ctx.otherRadioValues[IndexOf(ctx.otherRadioValues, own) - 1]))
    // Down and Right: the next sibling, the first one from the last position
    ensures keyCode in {DOWN, RIGHT} && own in ctx.otherRadioValues
              && IndexOf(ctx.otherRadioValues, own) == LastIndex(ctx.otherRadioValues) ==>
              r.request == Call(Defined(ctx.otherRadioValues[0]))
    ensures keyCode in {DOWN, RIGHT} && 0 <= IndexOf(ctx.otherRadioValues, own) < LastIndex(ctx.otherRadioValues) ==>
              r.request == Call(Defined(ctx.otherRadioValues[IndexOf(ctx.otherRadioValues, own) + 1]))
    // an option missing from the list still calls setChecked: with undefined
    // for Up/Left, and with the first sibling (undefined if none) for Down/Right
    ensures keyCode in {UP, LEFT} && own !in ctx.otherRadioValues ==> r.request == Call(Undefined)
    ensures keyCode in {DOWN, RIGHT} && own !in ctx.otherRadioValues ==>
              r.request == Call(Read(ctx.otherRadioValues, 0))
  {
    var siblings := ctx.otherRadioValues;
    match Classify(keyCode)
    case SelectOwn => KeyOutcome(Call(Defined(own)), true)
    case MovePrevious => KeyOutcome(Call(Previous(siblings, own)), true)
    case MoveNext => KeyOutcome(Call(Next(siblings, own)), true)
    case PassThrough => KeyOutcome(NoCall, false)
  }

  /** `handleClick`: always asks for the option's own value. */
  function HandleClick<V>(own: V): Request<V> {
    Call(Defined(own))
  }

  /** What `onChange` receives for one request, through `setChecked`. */
  function Forward<V>(hasOnChange: bool, request: Request<V>): seq<Slot<V>> {
    match request
    case NoCall => []
    case Call(v) => SetChecked(hasOnChange, v)
  }

  /** The single predicate behind both `tabIndex` and `aria-checked`. */
  predicate IsChecked<V(==)>(ctx: GroupContext<V>, own: V) {
    ctx.value == own
  }

  function TabIndex<V(==)>(ctx: GroupContext<V>, own: V): int {
    if IsChecked(ctx, own) then 0 else -1
  }

  function AriaChecked<V(==)>(ctx: GroupContext<V>, own: V): bool {
    IsChecked(ctx, own)
  }

  /** The guard of the focus effect: the option moves focus onto itself when
      it is the selected one and the group has `autoFocus` on. */
  predicate ClaimsFocus<V(==)>(ctx: GroupContext<V>, own: V) {
    ctx.autoFocus && IsChecked(ctx, own)
  }

  // ---------------------------------------------------------------------
  // Properties

  /** A key outside the handled six, END and HOME among them, calls nothing
      and lets the event through untouched. */
  lemma UnhandledKeyDoesNothing<V>(ctx: GroupContext<V>, own: V, keyCode: int)
    requires keyCode !in HandledCodes
    ensures HandleKeyDown(ctx, own, keyCode) == KeyOutcome(NoCall, false)
    ensures HandleKeyDown(ctx, own, END) == KeyOutcome(NoCall, false)
    ensures HandleKeyDown(ctx, own, HOME) == KeyOutcome(NoCall, false)
  {
    HomeAndEndPassThrough();
  }

  /** Each handled key makes `onChange` receive exactly one value when it is
      present and none when it is absent; an unhandled key makes it receive
      nothing either way. */
  lemma KeyDownForwarding<V>(hasOnChange: bool, ctx: GroupContext<V>, own: V, keyCode: int)
    ensures |Forward(hasOnChange, HandleKeyDown(ctx, own, keyCode).request)|
            == (if hasOnChange && keyCode in HandledCodes then 1 else 0)
  {
  }

  /** A click asks for the option's own value exactly as Space does, also when
      the option is already checked, and `onChange` receives that value. */
  lemma ClickRequestsOwnValue<V>(hasOnChange: bool, ctx: GroupContext<V>, own: V)
    ensures HandleClick(own) == HandleKeyDown(ctx, own, SPACE).request
    ensures Forward(hasOnChange, HandleClick(own)) == (if hasOnChange then [Defined(own)] else [])
  {
  }

  /** `setChecked` neither validates nor deduplicates: selecting the option
      that is already checked, by Space or by click, still hands its value to
      `onChange` when one is present, and is silently dropped otherwise. */
  lemma SelectingCheckedOptionStillForwards<V>(hasOnChange: bool, ctx: GroupContext<V>, own: V)
    requires AriaChecked(ctx, own)
    ensures Forward(hasOnChange, HandleKeyDown(ctx, own, SPACE).request)
            == Forward(hasOnChange, HandleClick(own))
            == (if hasOnChange then [Defined(own)] else [])
  {
  }

  /** With distinct sibling values the arrow keys move around one cycle:
      Down/Right from position `i` requests position `(i+1) mod n`, Up/Left
      position `(i+n-1) mod n`, and Up/Left undoes Down/Right. */
  lemma ArrowKeysCycle<V>(ctx: GroupContext<V>, i: int)
    requires Distinct(ctx.otherRadioValues)
    requires 0 <= i < |ctx.otherRadioValues|
    ensures var s := ctx.otherRadioValues;
      HandleKeyDown(ctx, s[i], DOWN).request == Call(Defined(s[(i + 1) % |s|]))
    ensures var s := ctx.otherRadioValues;
      HandleKeyDown(ctx, s[i], UP).request == Call(Defined(s[(i + |s| - 1) % |s|]))
    ensures var s := ctx.otherRadioValues;
      HandleKeyDown(ctx, s[(i + 1) % |s|], UP).request == Call(Defined(s[i]))
  {
    var s := ctx.otherRadioValues;
    NextAt(s, i);
    PreviousAt(s, i);
    PreviousUndoesNext(s, s[i]);
  }

  /** `tabIndex` and `aria-checked` agree: the option is tabbable exactly when
      it is checked, which is exactly when the group's value is its own. */
  lemma TabIndexMatchesAriaChecked<V>(ctx: GroupContext<V>, own: V)
    ensures TabIndex(ctx, own) == 0 || TabIndex(ctx, own) == -1
    ensures TabIndex(ctx, own) == 0 <==> AriaChecked(ctx, own)
    ensures AriaChecked(ctx, own) <==> ctx.value == own
  {
  }

  /** With distinct sibling values at most one option is checked, and so at
      most one is reachable with Tab. */
  lemma AtMostOneChecked<V>(ctx: GroupContext<V>, i: int, j: int)
    requires Distinct(ctx.otherRadioValues)
    requires 0 <= i < |ctx.otherRadioValues| && 0 <= j < |ctx.otherRadioValues|
    requires AriaChecked(ctx, ctx.otherRadioValues[i]) && AriaChecked(ctx, ctx.otherRadioValues[j])
    ensures i == j
  {
  }

  /** When the group's value is one of the distinct sibling values, exactly
      the option at that value's position has `tabIndex` 0. */
  lemma ExactlyOneChecked<V>(ctx: GroupContext<V>)
    requires Distinct(ctx.otherRadioValues)
    requires ctx.value in ctx.otherRadioValues
    ensures var s := ctx.otherRadioValues;
      var k := IndexOf(s, ctx.value);
      0 <= k < |s| && TabIndex(ctx, s[k]) == 0
      && forall j :: 0 <= j < |s| && j != k ==> TabIndex(ctx, s[j]) == -1
  {
  }

  /** When the group's value matches no sibling, no option is tabbable, the
      first one included: `tabIndex` has no fallback. */
  lemma NoTabStopWhenNothingChecked<V>(ctx: GroupContext<V>)
    requires ctx.value !in ctx.otherRadioValues
    ensures forall j :: 0 <= j < |ctx.otherRadioValues| ==> TabIndex(ctx, ctx.otherRadioValues[j]) == -1
    ensures forall j :: 0 <= j < |ctx.otherRadioValues| ==> !AriaChecked(ctx, ctx.otherRadioValues[j])
  {
  }

  /** Only the checked option claims focus, and a group that leaves
      `autoFocus` out never moves focus. */
  lemma FocusFollowsSelection<V>(props: GroupProps<V>, own: V)
    ensures ClaimsFocus(Context(props), own) ==> AriaChecked(Context(props), own)
    ensures props.autoFocus == Omitted ==> !ClaimsFocus(Context(props), own)
  {
  }

  /** With distinct sibling values at most one option claims focus. */
  lemma AtMostOneClaimsFocus<V>(ctx: GroupContext<V>, i: int, j: int)
    requires Distinct(ctx.otherRadioValues)
    requires 0 <= i < |ctx.otherRadioValues| && 0 <= j < |ctx.otherRadioValues|
    requires ClaimsFocus(ctx, ctx.otherRadioValues[i]) && ClaimsFocus(ctx, ctx.otherRadioValues[j])
    ensures i == j
  {
  }

  /** With a repeated value two options claim focus at once: in `[a, b, a]`
      with `a` selected, positions 0 and 2 both do. */
  lemma RepeatedValueClaimsFocusTwice<V>(a: V, b: V)
    ensures var ctx := GroupContext(a, [a, b, a], true);
      ClaimsFocus(ctx, ctx.otherRadioValues[0]) && ClaimsFocus(ctx, ctx.otherRadioValues[2])
  {
  }

  /** The group `[red, green, blue]` with `red` selected: Right asks for
      `green`, Left wraps to `blue`, Right from `blue` wraps to `red`. With a
      value that matches none of them, no option is tabbable. */
  lemma ColourScenario()
    ensures var ctx := GroupContext("red", ["red", "green", "blue"], false);
      && HandleKeyDown(ctx, "red", RIGHT).request == Call(Defined("green"))
      && HandleKeyDown(ctx, "red", LEFT).request == Call(Defined("blue"))
      && HandleKeyDown(ctx, "blue", RIGHT).request == Call(Defined("red"))
    ensures var ctx := GroupContext("", ["red", "green", "blue"], false);
      TabIndex(ctx, "red") == -1 && TabIndex(ctx, "green") == -1 && TabIndex(ctx, "blue") == -1
  {
    var s := ["red", "green", "blue"];
    assert IndexOf(s, "red") == 0;
    assert IndexOf(s, "blue") == 2;
  }
}
