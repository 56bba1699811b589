/**
  The `Control` class of camctrl.rb: one parameter the camera offers, and
  `set_values`, which reads the text after `Values :` according to the
  control's type.
*/
module ControlModel {
  import opened Options
  import opened Text
  import opened OrderedHash
  import opened Patterns

  /**
    A control's attributes at one moment. `nil` is `None`. Range bounds are
    the digit runs the range pattern captures; the default is the integer
    its token starts with.
  */
  datatype ControlInfo = ControlInfo(
    name: string,
    typeName: Option<string>,
    min: Option<nat>,
    max: Option<nat>,
    step: Option<nat>,
    choices: Option<Hash>,
    defaultValue: Option<int>)

  /** `Control.new(name)`: every attribute but the name is `nil`. */
  function NewControl(name: string): ControlInfo {
    ControlInfo(name, None, None, None, None, None, None)
  }

  /** What `"#{@type}"` prints: `nil` prints as the empty string. */
  function TypeText(t: Option<string>): string {
    if t.None? then "" else t.value
  }

  /** The branch of `case @type` in `set_values`: `/Dword/`, `/Choice/`, `/Button/`, `/Boolean/`, tried in this order. */
  datatype ValuesRule = RangeValues | ChoiceValues | ButtonValues | BooleanValues | UnknownType

  function ValuesRuleOf(t: Option<string>): ValuesRule {
    if t.None? then UnknownType
    else if Contains(t.value, "Dword") then RangeValues
    else if Contains(t.value, "Choice") then ChoiceValues
    else if Contains(t.value, "Button") then ButtonValues
    else if Contains(t.value, "Boolean") then BooleanValues
    else UnknownType
  }

  /** Some scanned token carries value `v`. */
  predicate Offered(ts: seq<Token>, v: string) {
    exists i :: 0 <= i < |ts| && ts[i].value == v
  }

  /** A fresh hash after `@choices[v] = c` for every scanned token `(c, v)`, in scan order. */
  function ChoicesOf(ts: seq<Token>): Hash {
    if ts == [] then []
    else
      var last := ts[|ts| - 1];
      Put(ChoicesOf(ts[..|ts| - 1]), last.value, last.caption)
  }

  /** One more scanned token stores its caption under its value. */
  lemma ChoicesOfNext(ts: seq<Token>, i: nat)
    requires i < |ts|
    ensures ChoicesOf(ts[..i + 1]) == Put(ChoicesOf(ts[..i]), ts[i].value, ts[i].caption)
  {
    assert ts[..i + 1][..i] == ts[..i];
  }

  /** The hash holds one entry per distinct scanned value, and no other key. */
  lemma {:induction false} ChoicesOfKeys(ts: seq<Token>)
    ensures UniqueKeys(ChoicesOf(ts))
    ensures forall k :: k in KeySet(ChoicesOf(ts)) <==> Offered(ts, k)
  {
    if ts != [] {
      var init := ts[..|ts| - 1];
      var last := ts[|ts| - 1];
      ChoicesOfKeys(init);
      PutKeys(ChoicesOf(init), last.value, last.caption);
      assert forall i :: 0 <= i < |init| ==> init[i] == ts[i];
    }
  }

  /** The caption of the last token that carries `v`, if any: who wins when a value repeats. */
  function LastCaption(ts: seq<Token>, v: string): Option<string> {
    if ts == [] then None
    else if ts[|ts| - 1].value == v then Some(ts[|ts| - 1].caption)
    else LastCaption(ts[..|ts| - 1], v)
  }

  /** Each value of the rebuilt hash maps to the caption of its last token: later duplicates overwrite earlier ones. */
  lemma {:induction false} ChoicesOfGet(ts: seq<Token>, v: string)
    ensures Get(ChoicesOf(ts), v) == LastCaption(ts, v)
  {
    if ts != [] {
      var last := ts[|ts| - 1];
      ChoicesOfGet(ts[..|ts| - 1], v);
      ChoicesOfKeys(ts[..|ts| - 1]);
      GetPut(ChoicesOf(ts[..|ts| - 1]), last.value, last.caption, v);
    }
  }

  /** What `set_values` leaves behind: the control and the diagnostic it prints, if any. */
  datatype Applied = Applied(control: ControlInfo, diagnostic: Option<string>)

  /** `set_values(values)` on a control in state `c`; it never touches the name, the type or the default. */
  function ApplyValues(c: ControlInfo, values: string): (r: Applied)
    ensures r.control.name == c.name && r.control.typeName == c.typeName && r.control.defaultValue == c.defaultValue
  {
    match ValuesRuleOf(c.typeName)
    case RangeValues =>
      (match RangeMatch(values)
       case Some(m) => Applied(c.(min := Some(m.min), max := Some(m.max), step := Some(m.step)), None)
       case None => Applied(c, Some("-E- Unrecognized value format: " + values)))
    case ChoiceValues => Applied(c.(choices := Some(ChoicesOf(Tokens(values)))), None)
    case ButtonValues => Applied(c, None)
    case BooleanValues => Applied(c, None)
    case UnknownType => Applied(c, Some("-E- Unrecognized control type " + TypeText(c.typeName)))
  }

  /** A `Dword` control takes min, max and step from the first range in the text, and nothing else changes. */
  lemma ApplyRange(c: ControlInfo, values: string)
    requires ValuesRuleOf(c.typeName) == RangeValues
    ensures RangeMatch(values).Some? ==>
              var m := RangeMatch(values).value;
              ApplyValues(c, values) == Applied(c.(min := Some(m.min), max := Some(m.max), step := Some(m.step)), None)
    ensures RangeMatch(values).None? ==>
              ApplyValues(c, values) == Applied(c, Some("-E- Unrecognized value format: " + values))
  {
  }

  /** A `Dword` control given the text of a range reads back exactly that range. */
  lemma ApplyRangeText(c: ControlInfo, r: Range)
    requires ValuesRuleOf(c.typeName) == RangeValues
    ensures ApplyValues(c, RangeText(r)).control == c.(min := Some(r.min), max := Some(r.max), step := Some(r.step))
    ensures ApplyValues(c, RangeText(r)).diagnostic.None?
  {
    RangeOfRangeText(r);
  }

  /**
    A `Choice` control gets a new hash, built from scratch: its keys are
    exactly the values of the scanned tokens, each mapped to the caption
    of the last token carrying it. Nothing else changes.
  */
  lemma ApplyChoice(c: ControlInfo, values: string)
    requires ValuesRuleOf(c.typeName) == ChoiceValues
    ensures var r := ApplyValues(c, values);
            && r.diagnostic.None?
            && r.control.choices.Some?
            && r.control == c.(choices := r.control.choices)
    ensures UniqueKeys(ApplyValues(c, values).control.choices.value)
    ensures forall k :: k in KeySet(ApplyValues(c, values).control.choices.value) <==> Offered(Tokens(values), k)
    ensures forall v :: Get(ApplyValues(c, values).control.choices.value, v) == LastCaption(Tokens(values), v)
  {
    var ts := Tokens(values);
    var h := ChoicesOf(ts);
    ChoicesOfKeys(ts);
    assert ApplyValues(c, values).control.choices.value == h;
    assert UniqueKeys(h);
    forall v ensures Get(h, v) == LastCaption(ts, v) {
      ChoicesOfGet(ts, v);
    }
  }

  /** A `Choice` control given the text of distinct-valued tokens maps each value to its caption. */
  lemma ApplyChoicesText(c: ControlInfo, ts: seq<Token>, i: nat)
    requires ValuesRuleOf(c.typeName) == ChoiceValues
    requires forall t | t in ts :: WellFormedToken(t)
    requires forall j, k :: 0 <= j < k < |ts| ==> ts[j].value != ts[k].value
    requires i < |ts|
    ensures Get(ApplyValues(c, ChoicesText(ts)).control.choices.value, ts[i].value) == Some(ts[i].caption)
  {
    var values := ChoicesText(ts);
    ChoicesStored(c, values);
    assert forall j :: 0 <= j < |ts| ==> WellFormedToken(ts[j]) by {
      forall j | 0 <= j < |ts| ensures WellFormedToken(ts[j]) { assert ts[j] in ts; }
    }
    TokensOfChoicesText(ts);
    assert ApplyValues(c, values).control.choices.value == ChoicesOf(ts);
    ChoicesOfGet(ts, ts[i].value);
    LastCaptionDistinct(ts, i);
  }

  lemma ChoicesStored(c: ControlInfo, values: string)
    requires ValuesRuleOf(c.typeName) == ChoiceValues
    ensures ApplyValues(c, values).control.choices == Some(ChoicesOf(Tokens(values)))
  {
  }

  lemma {:induction false} LastCaptionDistinct(ts: seq<Token>, i: nat)
    requires forall j, k :: 0 <= j < k < |ts| ==> ts[j].value != ts[k].value
    requires i < |ts|
    ensures LastCaption(ts, ts[i].value) == Some(ts[i].caption)
  {
    if i < |ts| - 1 {
      var init := ts[..|ts| - 1];
      assert init[i] == ts[i];
      LastCaptionDistinct(init, i);
    }
  }

  /** `Button` and `Boolean` controls ignore their values; any other type prints a diagnostic naming it. */
  lemma ApplyOther(c: ControlInfo, values: string)
    ensures ValuesRuleOf(c.typeName) in {ButtonValues, BooleanValues} ==> ApplyValues(c, values) == Applied(c, None)
    ensures ValuesRuleOf(c.typeName) == UnknownType ==>
              ApplyValues(c, values) == Applied(c, Some("-E- Unrecognized control type " + TypeText(c.typeName)))
    ensures ValuesRuleOf(c.typeName) == UnknownType <==>
              c.typeName.None? || !(Contains(c.typeName.value, "Dword") || Contains(c.typeName.value, "Choice")
                                    || Contains(c.typeName.value, "Button") || Contains(c.typeName.value, "Boolean"))
  {
  }

  /**
    The order of the `case @type` tests: `Dword` first, then `Choice`, then
    `Button`, then `Boolean`; a type containing several of these words
    takes the first branch that matches.
  */
  lemma ValuesRules(t: string)
    ensures ValuesRuleOf(Some(t)) == RangeValues <==> Contains(t, "Dword")
    ensures ValuesRuleOf(Some(t)) == ChoiceValues <==> !Contains(t, "Dword") && Contains(t, "Choice")
    ensures ValuesRuleOf(Some(t)) == ButtonValues <==>
              !Contains(t, "Dword") && !Contains(t, "Choice") && Contains(t, "Button")
    ensures ValuesRuleOf(Some(t)) == BooleanValues <==>
              !Contains(t, "Dword") && !Contains(t, "Choice") && !Contains(t, "Button") && Contains(t, "Boolean")
    ensures ValuesRuleOf(Some(t)) == UnknownType <==>
              !Contains(t, "Dword") && !Contains(t, "Choice") && !Contains(t, "Button") && !Contains(t, "Boolean")
  {
  }

  /** A Values line before any Type line is refused with the unrecognised-type diagnostic and changes nothing. */
  lemma UntypedValues(name: string, values: string)
    ensures ApplyValues(NewControl(name), values) == Applied(NewControl(name), Some("-E- Unrecognized control type "))
  {
    ApplyOther(NewControl(name), values);
    assert "-E- Unrecognized control type " + TypeText(None) == "-E- Unrecognized control type ";
  }

  /** One discovered control. The parser updates its attributes in place. */
  class Control {
    var name: string
    var typeName: Option<string>
    var min: Option<nat>
    var max: Option<nat>
    var step: Option<nat>
    var choices: Option<Hash>
    var defaultValue: Option<int>

    /** The attributes as a value. */
    function Value(): ControlInfo
      reads this
    {
      ControlInfo(name, typeName, min, max, step, choices, defaultValue)
    }

    constructor (name: string)
      ensures Value() == NewControl(name)
    {
      this.name := name;
      typeName, min, max, step, choices, defaultValue := None, None, None, None, None, None;
    }

    /** `set_values(values)`; the diagnostic it prints is returned. */
    method SetValues(values: string) returns (diagnostic: Option<string>)
      modifies this
      ensures Value() == ApplyValues(old(Value()), values).control
      ensures diagnostic == ApplyValues(old(Value()), values).diagnostic
    {
      match ValuesRuleOf(typeName)
      case RangeValues =>
        var found := RangeMatch(values);
        if found.Some? {
          SetRange(found.value);
          diagnostic := None;
        } else {
          diagnostic := Some("-E- Unrecognized value format: " + values);
        }
      case ChoiceValues =>
        SetChoices(Tokens(values));
        diagnostic := None;
      case ButtonValues =>
        diagnostic := None;
      case BooleanValues =>
        diagnostic := None;
      case UnknownType =>
        diagnostic := Some("-E- Unrecognized control type " + TypeText(typeName));
    }

    /** The `Dword` branch: the three captures become min, max and step. */
    method SetRange(m: Range)
      modifies this
      ensures Value() == old(Value()).(min := Some(m.min), max := Some(m.max), step := Some(m.step))
    {
      min := Some(m.min);
      max := Some(m.max);
      step := Some(m.step);
    }

    /** The `Choice` branch: a new hash, then one store per scanned token. */
    method SetChoices(ts: seq<Token>)
      modifies this
      ensures Value() == old(Value()).(choices := Some(ChoicesOf(ts)))
    {
      choices := Some([]);
      var i := 0;
      while i < |ts|
        invariant 0 <= i <= |ts|
        invariant choices == Some(ChoicesOf(ts[..i]))
        modifies this`choices
      {
        ChoicesOfNext(ts, i);
        choices := Some(Put(choices.value, ts[i].value, ts[i].caption));
        i := i + 1;
      }
      assert ts[..|ts|] == ts;
    }
  }
}
