/**
  The discovery half of `CamCtrl`: `save_control`, which files a finished
  control in one of four tables, and `parse_controls`, the line-by-line
  reading of the utility's listing. Here both are functions on values;
  the `CamCtrl` class runs them in place and is proved against them.
*/
module Discovery {
  import opened Options
  import opened Text
  import opened Patterns
  import opened ControlModel

  // ---------- save_control

  /** The name rule that wins over every type: `/Pan/` or `/Tilt/`. */
  predicate IsMotorName(name: string) {
    Contains(name, "Pan") || Contains(name, "Tilt")
  }

  /** Where `save_control` files a control; `NoGroup` carries the diagnostic it prints instead. */
  datatype Group = MotorGroup | SliderGroup | ToggleGroup | ChoiceGroup | NoGroup(diagnostic: string)

  /** `Dword`, `Button`, `Boolean`, `Choice` are tried in this order once the name rule fails. */
  function GroupOf(c: ControlInfo): Group {
    if IsMotorName(c.name) then MotorGroup
    else if c.typeName.None? then NoGroup("-E- Unrecognized control " + c.name + " type " + TypeText(c.typeName))
    else if Contains(c.typeName.value, "Dword") then SliderGroup
    else if Contains(c.typeName.value, "Button") then NoGroup("-E- Unhandled Button type for " + c.name)
    else if Contains(c.typeName.value, "Boolean") then ToggleGroup
    else if Contains(c.typeName.value, "Choice") then ChoiceGroup
    else NoGroup("-E- Unrecognized control " + c.name + " type " + TypeText(c.typeName))
  }

  /**
    How `save_control` routes a control: the name rule first, whatever the
    type; then the first of `Dword`, `Button`, `Boolean`, `Choice` the type
    contains; a `Button`, an unknown or a missing type is filed nowhere and
    reported.
  */
  lemma GroupRules(c: ControlInfo)
    ensures GroupOf(c) == MotorGroup <==> IsMotorName(c.name)
    ensures !IsMotorName(c.name) && c.typeName.None? ==>
              GroupOf(c) == NoGroup("-E- Unrecognized control " + c.name + " type " + TypeText(None))
    ensures !IsMotorName(c.name) && c.typeName.Some? ==>
              var t := c.typeName.value;
              && (GroupOf(c) == SliderGroup <==> Contains(t, "Dword"))
              && (GroupOf(c) == NoGroup("-E- Unhandled Button type for " + c.name) <==> !Contains(t, "Dword") && Contains(t, "Button"))
              && (GroupOf(c) == ToggleGroup <==> !Contains(t, "Dword") && !Contains(t, "Button") && Contains(t, "Boolean"))
              && (GroupOf(c) == ChoiceGroup <==> !Contains(t, "Dword") && !Contains(t, "Button") && !Contains(t, "Boolean") && Contains(t, "Choice"))
              && (GroupOf(c) == NoGroup("-E- Unrecognized control " + c.name + " type " + t) <==>
                    !Contains(t, "Dword") && !Contains(t, "Button") && !Contains(t, "Boolean") && !Contains(t, "Choice"))
  {
    if !IsMotorName(c.name) && c.typeName.Some? {
      var t := c.typeName.value;
      assert "-E- Unrecognized control " + c.name + " type " + t != "-E- Unhandled Button type for " + c.name by {
        assert ("-E- Unrecognized control " + c.name + " type " + t)[6] == 'r';
        assert ("-E- Unhandled Button type for " + c.name)[6] == 'h';
      }
    }
  }
  /** A control saved before any Type line is filed only when its name makes it a motor. */
  lemma UntypedGroup(name: string)
    ensures GroupOf(NewControl(name)) ==
              if IsMotorName(name) then MotorGroup else NoGroup("-E- Unrecognized control " + name + " type ")
  {
    GroupRules(NewControl(name));
  }


  /** The four hashes `@motor_controls`, `@slider_controls`, `@toggle_controls`, `@choice_controls`. */
  datatype Tables = Tables(
    motor: map<string, ControlInfo>,
    slider: map<string, ControlInfo>,
    toggle: map<string, ControlInfo>,
    choice: map<string, ControlInfo>)

  const NoTables := Tables(map[], map[], map[], map[])

  /** The table of a group; controls of no group have none. */
  function Table(tb: Tables, g: Group): map<string, ControlInfo> {
    match g
    case MotorGroup => tb.motor
    case SliderGroup => tb.slider
    case ToggleGroup => tb.toggle
    case ChoiceGroup => tb.choice
    case NoGroup(_) => map[]
  }

  /** The tables after `c` is stored in the table of group `g`; no group, no change. */
  function File(tb: Tables, g: Group, c: ControlInfo): Tables {
    match g
    case MotorGroup => tb.(motor := tb.motor[c.name := c])
    case SliderGroup => tb.(slider := tb.slider[c.name := c])
    case ToggleGroup => tb.(toggle := tb.toggle[c.name := c])
    case ChoiceGroup => tb.(choice := tb.choice[c.name := c])
    case NoGroup(_) => tb
  }

  /** `save_control(c)` on a control: the tables afterwards and the diagnostic printed, if any. */
  function Save(tb: Tables, c: ControlInfo): (Tables, Option<string>) {
    var g := GroupOf(c);
    (File(tb, g, c), if g.NoGroup? then Some(g.diagnostic) else None)
  }

  /** Only the table of the control's group changes, and only at the control's name; a control of no group is reported instead. */
  lemma SaveChanges(tb: Tables, c: ControlInfo)
    ensures forall g :: Table(Save(tb, c).0, g) ==
              if g == GroupOf(c) && !g.NoGroup? then Table(tb, g)[c.name := c] else Table(tb, g)
    ensures Save(tb, c).1 == if GroupOf(c).NoGroup? then Some(GroupOf(c).diagnostic) else None
  {
  }

  /** Every entry is keyed by its own name and sits in the table of its group. */
  ghost predicate Grouped(tb: Tables) {
    forall g, n :: n in Table(tb, g) ==> Table(tb, g)[n].name == n && GroupOf(Table(tb, g)[n]) == g
  }

  lemma SaveGrouped(tb: Tables, c: ControlInfo)
    requires Grouped(tb)
    ensures Grouped(Save(tb, c).0)
  {
    SaveChanges(tb, c);
  }

  /** `save_control` for every control of `cs`, in order. */
  function SaveAll(tb: Tables, cs: seq<ControlInfo>): Tables {
    if cs == [] then tb else Save(SaveAll(tb, cs[..|cs| - 1]), cs[|cs| - 1]).0
  }

  /** Reference: the last control of `cs` that has name `n` and belongs to `g`. */
  function LastSaved(cs: seq<ControlInfo>, g: Group, n: string): Option<ControlInfo> {
    if cs == [] then None
    else if cs[|cs| - 1].name == n && GroupOf(cs[|cs| - 1]) == g && !g.NoGroup? then Some(cs[|cs| - 1])
    else LastSaved(cs[..|cs| - 1], g, n)
  }

  /** What a table holds after saving `cs` into empty tables: the last control of that name and group. */
  lemma {:induction false} SaveAllLookup(cs: seq<ControlInfo>, g: Group, n: string)
    ensures n in Table(SaveAll(NoTables, cs), g) <==> LastSaved(cs, g, n).Some?
    ensures n in Table(SaveAll(NoTables, cs), g) ==> Table(SaveAll(NoTables, cs), g)[n] == LastSaved(cs, g, n).value
  {
    if cs != [] {
      SaveAllLookup(cs[..|cs| - 1], g, n);
      SaveChanges(SaveAll(NoTables, cs[..|cs| - 1]), cs[|cs| - 1]);
    }
  }

  lemma {:induction false} SaveAllGrouped(cs: seq<ControlInfo>)
    ensures Grouped(SaveAll(NoTables, cs))
  {
    if cs != [] {
      SaveAllGrouped(cs[..|cs| - 1]);
      SaveGrouped(SaveAll(NoTables, cs[..|cs| - 1]), cs[|cs| - 1]);
    }
  }

  // ---------- parse_controls

  const QueryingMessage := "-I- Querying the camera..."

  /** The diagnostic an operation printed, as console lines. */
  function Printed(d: Option<string>): seq<string> {
    if d.None? then [] else [d.value]
  }

  /**
    The parser's state: the tables, `@device`, `current_control`, what was
    printed, and (for the proofs) the controls handed to `save_control`.
  */
  datatype Parser = Parser(
    tables: Tables,
    device: string,
    current: Option<ControlInfo>,
    console: seq<string>,
    saved: seq<ControlInfo>)

  const Initial := Parser(NoTables, "", None, [QueryingMessage], [])

  /** `save_control(current_control)`; a `nil` control is ignored. */
  function Flush(p: Parser): Parser {
    match p.current
    case None => p
    case Some(c) =>
      var r := Save(p.tables, c);
      p.(tables := r.0, console := p.console + Printed(r.1), saved := p.saved + [c])
  }

  /**
    The effect of a line on the control it belongs to: a Type line sets only
    the type, a Default line only the default, a Values line only what
    `set_values` sets; no line renames the control, and every other line
    leaves it alone.
  */
  function Apply(c: ControlInfo, k: LineKind): (r: ControlInfo)
    ensures r.name == c.name
    ensures k.TypeField? ==> r.typeName == Some(k.word)
    ensures !k.TypeField? ==> r.typeName == c.typeName
    ensures k.DefaultField? ==> r.defaultValue == Some(LeadingInt(k.token))
    ensures !k.DefaultField? ==> r.defaultValue == c.defaultValue
    ensures k.ValuesField? ==> r == ApplyValues(c, k.text).control
    ensures !k.ValuesField? ==> r.min == c.min && r.max == c.max && r.step == c.step && r.choices == c.choices
    ensures !NeedsControl(k) ==> r == c
  {
    match k
    case TypeField(w) => c.(typeName := Some(w))
    case ValuesField(text) => ApplyValues(c, text).control
    case DefaultField(token) => c.(defaultValue := Some(LeadingInt(token)))
    case _ => c
  }

  /** Diagnostics a line prints about the control it belongs to. */
  function ApplyPrinted(c: ControlInfo, k: LineKind): seq<string> {
    match k
    case ValuesField(text) => Printed(ApplyValues(c, text).diagnostic)
    case _ => []
  }

  /** One iteration of the loop over the listing, given how its line was classified. A field line needs a current control: Ruby raises on `nil` there. */
  function Step(p: Parser, k: LineKind): Parser
    requires p.current.Some? || !NeedsControl(k)
  {
    match k
    case Header(d) => p.(device := d, console := p.console + ["device: " + d])
    case ControlStart(name) => Flush(p).(current := Some(NewControl(name)))
    case _ =>
      if p.current.None? then p
      else p.(current := Some(Apply(p.current.value, k)), console := p.console + ApplyPrinted(p.current.value, k))
  }

  /** Lines other than a header or a new control touch only the current control and the console. */
  lemma StepFrame(p: Parser, k: LineKind)
    requires p.current.Some? || !NeedsControl(k)
    ensures !k.ControlStart? ==> Step(p, k).tables == p.tables && Step(p, k).saved == p.saved
    ensures !k.Header? ==> Step(p, k).device == p.device
    ensures k.Header? ==> Step(p, k).current == p.current && Step(p, k).device == k.device
    ensures k.FlagsField? || k.Unmatched? ==> Step(p, k) == p
    ensures NeedsControl(k) ==> Step(p, k).current.Some? && Step(p, k).current.value.name == p.current.value.name
    ensures k.ControlStart? ==> Step(p, k).device == Flush(p).device == p.device
  {
  }

  /** The listing, classified line by line. */
  function Classified(lines: seq<string>): seq<LineKind> {
    seq(|lines|, i requires 0 <= i < |lines| => Classify(lines[i]))
  }

  /** Some line of `ks` starts a control. */
  predicate HasStart(ks: seq<LineKind>) {
    ks != [] && (ks[|ks| - 1].ControlStart? || HasStart(ks[..|ks| - 1]))
  }

  /** Every Type, Values or Default line comes after some control line. */
  predicate WellFormed(ks: seq<LineKind>) {
    ks == [] || (WellFormed(ks[..|ks| - 1]) && (NeedsControl(ks[|ks| - 1]) ==> HasStart(ks[..|ks| - 1])))
  }

  /** `HasStart` read position by position. */
  lemma {:induction false} HasStartAt(ks: seq<LineKind>)
    ensures HasStart(ks) <==> exists j :: 0 <= j < |ks| && ks[j].ControlStart?
  {
    if ks != [] {
      var init := ks[..|ks| - 1];
      HasStartAt(init);
      if HasStart(init) {
        var j :| 0 <= j < |init| && init[j].ControlStart?;
        assert ks[j] == init[j];
      }
      if j :| 0 <= j < |ks| - 1 && ks[j].ControlStart? {
        assert init[j] == ks[j];
      }
    }
  }

  /** `WellFormed` read position by position: each field line has a control line somewhere before it. */
  lemma {:induction false} WellFormedAt(ks: seq<LineKind>)
    ensures WellFormed(ks) <==> forall i :: 0 <= i < |ks| && NeedsControl(ks[i]) ==> HasStart(ks[..i])
  {
    if ks != [] {
      var init := ks[..|ks| - 1];
      WellFormedAt(init);
      assert forall i :: 0 <= i < |init| ==> init[i] == ks[i] && init[..i] == ks[..i];
    }
  }

  /** Every prefix of a well-formed listing is well formed. */
  lemma {:induction false} WellFormedPrefix(ks: seq<LineKind>, n: nat)
    requires WellFormed(ks) && n <= |ks|
    ensures WellFormed(ks[..n])
    decreases |ks|
  {
    if n < |ks| {
      var init := ks[..|ks| - 1];
      WellFormedPrefix(init, n);
      assert init[..n] == ks[..n];
    } else {
      assert ks[..n] == ks;
    }
  }

  /** The parser after the loop over the listing, before the final flush. */
  function Run(ks: seq<LineKind>): (p: Parser)
    requires WellFormed(ks)
    ensures p.current.Some? <==> HasStart(ks)
  {
    if ks == [] then Initial
    else Step(Run(ks[..|ks| - 1]), ks[|ks| - 1])
  }

  /** One more line of a well-formed listing: it can be read, and the run advances by one step. */
  lemma RunNext(ks: seq<LineKind>, i: nat)
    requires WellFormed(ks) && i < |ks|
    ensures WellFormed(ks[..i]) && WellFormed(ks[..i + 1])
    ensures Run(ks[..i]).current.Some? || !NeedsControl(ks[i])
    ensures Run(ks[..i + 1]) == Step(Run(ks[..i]), ks[i])
  {
    WellFormedPrefix(ks, i + 1);
    var q := ks[..i + 1];
    assert q[..|q| - 1] == ks[..i] && q[|q| - 1] == ks[i];
    RunLast(q);
  }

  /** The run over a non-empty listing is one step after the run over all but its last line. */
  lemma RunLast(q: seq<LineKind>)
    requires WellFormed(q) && q != []
    ensures WellFormed(q[..|q| - 1])
    ensures Run(q[..|q| - 1]).current.Some? || !NeedsControl(q[|q| - 1])
    ensures Run(q) == Step(Run(q[..|q| - 1]), q[|q| - 1])
  {
  }

  /** `parse_controls` over a classified listing: the loop, then the final `save_control(current_control)`. */
  function Discover(ks: seq<LineKind>): Parser
    requires WellFormed(ks)
  {
    Flush(Run(ks))
  }

  // ---------- an independent reading of the listing

  /** A control line and the lines after it, up to the next control line. */
  datatype Block = Block(name: string, body: seq<LineKind>)

  /** The listing cut into blocks; lines before the first control line belong to none. */
  function Blocks(ks: seq<LineKind>): seq<Block> {
    if ks == [] then []
    else
      var bs := Blocks(ks[..|ks| - 1]);
      var k := ks[|ks| - 1];
      if k.ControlStart? then bs + [Block(k.name, [])]
      else if bs == [] then []
      else bs[..|bs| - 1] + [bs[|bs| - 1].(body := bs[|bs| - 1].body + [k])]
  }

  /** A control built from its block alone. */
  function Build(b: Block): (c: ControlInfo)
    ensures c.name == b.name
    decreases |b.body|
  {
    if b.body == [] then NewControl(b.name)
    else Apply(Build(b.(body := b.body[..|b.body| - 1])), b.body[|b.body| - 1])
  }

  /** Position `i` holds the last Type line of `body`. */
  predicate LastTypeAt(body: seq<LineKind>, i: int) {
    0 <= i < |body| && body[i].TypeField? && forall j :: i < j < |body| ==> !body[j].TypeField?
  }

  /** Position `i` holds the last Default line of `body`. */
  predicate LastDefaultAt(body: seq<LineKind>, i: int) {
    0 <= i < |body| && body[i].DefaultField? && forall j :: i < j < |body| ==> !body[j].DefaultField?
  }

  /** A control's type is the word of the last Type line of its block; `nil` when there is none. */
  lemma {:induction false} BuildType(b: Block)
    ensures Build(b).typeName.None? <==> forall i :: 0 <= i < |b.body| ==> !b.body[i].TypeField?
    ensures forall i :: LastTypeAt(b.body, i) ==> Build(b).typeName == Some(b.body[i].word)
    decreases |b.body|
  {
    if b.body != [] {
      var n := |b.body| - 1;
      var init := b.(body := b.body[..n]);
      BuildType(init);
      var k := b.body[n];
      assert Build(b) == Apply(Build(init), k);
      if k.TypeField? {
        assert Build(b).typeName == Some(k.word);
      } else {
        assert Build(b).typeName == Build(init).typeName;
      }
      assert forall i :: 0 <= i < n ==> init.body[i] == b.body[i];
      forall i | LastTypeAt(b.body, i)
        ensures Build(b).typeName == Some(b.body[i].word)
      {
        if i < n {
          assert LastTypeAt(init.body, i);
        }
      }
    }
  }

  /** A control's default is the number leading the last Default line's token; `nil` when there is none. */
  lemma {:induction false} BuildDefault(b: Block)
    ensures Build(b).defaultValue.None? <==> forall i :: 0 <= i < |b.body| ==> !b.body[i].DefaultField?
    ensures forall i :: LastDefaultAt(b.body, i) ==> Build(b).defaultValue == Some(LeadingInt(b.body[i].token))
    decreases |b.body|
  {
    if b.body != [] {
      var n := |b.body| - 1;
      var init := b.(body := b.body[..n]);
      BuildDefault(init);
      var k := b.body[n];
      assert Build(b) == Apply(Build(init), k);
      if k.DefaultField? {
        assert Build(b).defaultValue == Some(LeadingInt(k.token));
      } else {
        assert Build(b).defaultValue == Build(init).defaultValue;
      }
      assert forall i :: 0 <= i < n ==> init.body[i] == b.body[i];
      forall i | LastDefaultAt(b.body, i)
        ensures Build(b).defaultValue == Some(LeadingInt(b.body[i].token))
      {
        if i < n {
          assert LastDefaultAt(init.body, i);
        }
      }
    }
  }

  /** A block with no Values line leaves min, max, step and the choices `nil`. */
  lemma {:induction false} BuildUnvalued(b: Block)
    requires forall i :: 0 <= i < |b.body| ==> !b.body[i].ValuesField?
    ensures Build(b).min.None? && Build(b).max.None? && Build(b).step.None? && Build(b).choices.None?
    decreases |b.body|
  {
    if b.body != [] {
      var n := |b.body| - 1;
      var init := b.(body := b.body[..n]);
      assert forall i :: 0 <= i < n ==> init.body[i] == b.body[i];
      BuildUnvalued(init);
      assert Build(b) == Apply(Build(init), b.body[n]);
    }
  }

  function BuildAll(bs: seq<Block>): (cs: seq<ControlInfo>)
    ensures |cs| == |bs| && forall k :: 0 <= k < |bs| ==> cs[k] == Build(bs[k])
  {
    if bs == [] then [] else BuildAll(bs[..|bs| - 1]) + [Build(bs[|bs| - 1])]
  }

  /** The names of the control lines, in order. */
  function StartNames(ks: seq<LineKind>): seq<string> {
    if ks == [] then []
    else StartNames(ks[..|ks| - 1]) + (if ks[|ks| - 1].ControlStart? then [ks[|ks| - 1].name] else [])
  }

  /** One block per control line, named by it, in order. */
  lemma {:induction false} BlockNames(ks: seq<LineKind>)
    ensures |Blocks(ks)| == |StartNames(ks)|
    ensures forall i :: 0 <= i < |Blocks(ks)| ==> Blocks(ks)[i].name == StartNames(ks)[i]
  {
    if ks != [] {
      BlockNames(ks[..|ks| - 1]);
    }
  }

  /** The parser agrees with the blocks: the finished ones are saved, the open one is the current control. */
  predicate Tracks(p: Parser, bs: seq<Block>) {
    && (p.current.None? <==> bs == [])
    && (p.current.None? ==> p.saved == [])
    && (p.current.Some? ==> p.saved == BuildAll(bs[..|bs| - 1]) && p.current.value == Build(bs[|bs| - 1]))
  }

  /** A control line closes the open block and opens a new one. */
  lemma TracksStart(p: Parser, bs: seq<Block>, k: LineKind)
    requires Tracks(p, bs) && k.ControlStart?
    ensures Tracks(Step(p, k), bs + [Block(k.name, [])])
  {
    var bs' := bs + [Block(k.name, [])];
    assert bs'[..|bs'| - 1] == bs;
    if p.current.Some? {
      assert bs[..|bs| - 1] + [bs[|bs| - 1]] == bs;
    }
  }

  /** Any other line joins the open block, if there is one. */
  lemma TracksBody(p: Parser, bs: seq<Block>, k: LineKind)
    requires Tracks(p, bs) && !k.ControlStart? && (p.current.Some? || !NeedsControl(k))
    ensures bs == [] ==> Tracks(Step(p, k), [])
    ensures bs != [] ==> Tracks(Step(p, k), bs[..|bs| - 1] + [bs[|bs| - 1].(body := bs[|bs| - 1].body + [k])])
  {
    StepFrame(p, k);
    if bs != [] {
      var last := bs[|bs| - 1];
      var b := last.(body := last.body + [k]);
      var bs' := bs[..|bs| - 1] + [b];
      assert bs'[..|bs'| - 1] == bs[..|bs| - 1];
      assert b.(body := b.body[..|b.body| - 1]) == last;
      assert Build(b) == Apply(Build(last), k);
    }
  }

  /** The loop keeps the saved controls equal to the finished blocks and the current control equal to the open one. */
  lemma {:induction false} RunBlocks(ks: seq<LineKind>)
    requires WellFormed(ks)
    ensures Tracks(Run(ks), Blocks(ks))
  {
    if ks != [] {
      var init := ks[..|ks| - 1];
      var k := ks[|ks| - 1];
      RunLast(ks);
      RunBlocks(init);
      if k.ControlStart? {
        TracksStart(Run(init), Blocks(init), k);
      } else {
        TracksBody(Run(init), Blocks(init), k);
      }
    }
  }

  /** `save_control` receives exactly one control per block, built from that block's lines. */
  lemma DiscoverSaved(ks: seq<LineKind>)
    requires WellFormed(ks)
    ensures Discover(ks).saved == BuildAll(Blocks(ks))
    ensures |Discover(ks).saved| == |StartNames(ks)|
    ensures forall i :: 0 <= i < |StartNames(ks)| ==> Discover(ks).saved[i].name == StartNames(ks)[i]
  {
    RunBlocks(ks);
    BlockNames(ks);
    var bs := Blocks(ks);
    if bs != [] {
      assert BuildAll(bs) == BuildAll(bs[..|bs| - 1]) + [Build(bs[|bs| - 1])];
    }
  }

  /** The loop keeps the tables equal to saving, in order, every control handed over so far. */
  lemma {:induction false} RunTables(ks: seq<LineKind>)
    requires WellFormed(ks)
    ensures Run(ks).tables == SaveAll(NoTables, Run(ks).saved)
  {
    if ks != [] {
      var init := ks[..|ks| - 1];
      WellFormedPrefix(ks, |ks| - 1);
      RunTables(init);
      var p := Run(init);
      var k := ks[|ks| - 1];
      if k.ControlStart? && p.current.Some? {
        var s := p.saved + [p.current.value];
        assert s[..|s| - 1] == p.saved;
        assert SaveAll(NoTables, s) == Save(SaveAll(NoTables, p.saved), p.current.value).0;
        assert Step(p, k).tables == Save(p.tables, p.current.value).0;
        assert Step(p, k).saved == s;
      } else {
        StepFrame(p, k);
      }
    }
  }

  /**
    The tables `parse_controls` leaves: each entry is keyed by its name and
    filed by its group, and it is the last control of that name and group.
  */
  lemma DiscoverTables(ks: seq<LineKind>, g: Group, n: string)
    requires WellFormed(ks)
    ensures Grouped(Discover(ks).tables)
    ensures n in Table(Discover(ks).tables, g) <==> LastSaved(Discover(ks).saved, g, n).Some?
    ensures n in Table(Discover(ks).tables, g) ==>
              Table(Discover(ks).tables, g)[n] == LastSaved(Discover(ks).saved, g, n).value
  {
    RunTables(ks);
    var p := Run(ks);
    if p.current.Some? {
      var s := p.saved + [p.current.value];
      assert s[..|s| - 1] == p.saved;
    }
    assert Discover(ks).tables == SaveAll(NoTables, Discover(ks).saved);
    SaveAllGrouped(Discover(ks).saved);
    SaveAllLookup(Discover(ks).saved, g, n);
  }

  /** Reference: the device named by the last header line, or the empty string. */
  function LastDevice(ks: seq<LineKind>): string {
    if ks == [] then ""
    else if ks[|ks| - 1].Header? then ks[|ks| - 1].device
    else LastDevice(ks[..|ks| - 1])
  }

  /** The loop keeps `@device` equal to the device of the last header line so far. */
  lemma {:induction false} RunDevice(ks: seq<LineKind>)
    requires WellFormed(ks)
    ensures Run(ks).device == LastDevice(ks)
  {
    if ks != [] {
      var init := ks[..|ks| - 1];
      WellFormedPrefix(ks, |ks| - 1);
      RunDevice(init);
      StepFrame(Run(init), ks[|ks| - 1]);
    }
  }

  /** `@device` ends up as the device of the last header line, or `''` when there is none. */
  lemma DiscoverDevice(ks: seq<LineKind>)
    requires WellFormed(ks)
    ensures Discover(ks).device == LastDevice(ks)
  {
    RunDevice(ks);
  }
}
