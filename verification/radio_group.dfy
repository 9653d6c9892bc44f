/** The group container: the props it reads, the context it publishes to its
    options, and the change callback it hands them. */
module RadioGroup {
  import opened Js
  import opened Siblings

  /** An immediate child of the group, reduced to the one prop the group
      reads from it. */
  datatype RadioChild<V> = RadioChild(value: V)

  /** The group's props. `onChange` is represented only by whether it is
      present, since the model observes it through the values it receives;
      `autoFocus` is `Omitted` when the caller leaves it out. */
  datatype GroupProps<V> = GroupProps(
    labelledBy: string,
    children: seq<RadioChild<V>>,
    value: V,
    hasOnChange: bool,
    autoFocus: Prop<bool>)

  /** What every option reads from the shared context. The change callback is
      not a field: its effect is `SetChecked`. */
  datatype GroupContext<V> = GroupContext(value: V, otherRadioValues: seq<V>, autoFocus: bool)

  /** `otherRadioValues`: each child's `value`, in declaration order. */
  function SiblingValues<V>(children: seq<RadioChild<V>>): (r: seq<V>)
    ensures |r| == |children|
    ensures forall i :: 0 <= i < |children| ==> r[i] == children[i].value
  {
    if |children| == 0 then []
    else [children[0].value] + SiblingValues(children[1..])
  }

  /** The context one render of the group publishes. An omitted `autoFocus`
      takes the parameter default, `false`. */
  function Context<V>(props: GroupProps<V>): (ctx: GroupContext<V>)
    ensures ctx.value == props.value
    ensures |ctx.otherRadioValues| == |props.children|
    ensures forall i :: 0 <= i < |props.children| ==> ctx.otherRadioValues[i] == props.children[i].value
    ensures ctx.autoFocus <==> props.autoFocus == Passed(true)
  {
    var autoFocus := match props.autoFocus
      case Omitted => false
      case Passed(b) => b;
    GroupContext(props.value, SiblingValues(props.children), autoFocus)
  }

  /** `setChecked`: the values `onChange` receives for one request. The value
      is forwarded unchanged when `onChange` is present, with no validation
      and no comparison against the current value, and silently dropped when
      it is absent. */
  function SetChecked<V>(hasOnChange: bool, v: Slot<V>): seq<Slot<V>> {
    if hasOnChange then [v] else []
  }

  /** Every declared option finds its own value among the siblings, at its
      declaration position or, when an earlier child repeats the value, at
      that earlier child's position. With distinct values it is exactly its
      own position. */
  lemma DeclaredOptionFindsItself<V>(children: seq<RadioChild<V>>, i: int)
    requires 0 <= i < |children|
    ensures 0 <= IndexOf(SiblingValues(children), children[i].value) <= i
    ensures Distinct(SiblingValues(children)) ==> IndexOf(SiblingValues(children), children[i].value) == i
  {
    var s := SiblingValues(children);
    assert s[i] == children[i].value;
    if Distinct(s) {
      IndexOfDistinct(s, i);
    }
  }
}
