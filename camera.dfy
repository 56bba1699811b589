/**
  The `CamCtrl` class of camctrl.rb without its Tk window: the four
  control tables, the device, the discovery loop and the callbacks that
  send commands to the camera utility.
*/
module Camera {
  import opened Options
  import opened Text
  import opened OrderedHash
  import opened Patterns
  import opened ControlModel
  import opened Discovery

  /** The external utility every command goes through. */
  const Utility := "/usr/bin/uvcdynctrl"

  const MissingUtilityMessage := "-E- " + Utility + " not found or not executable. Aborting"

  /** The text of the command before the control name, and between the name and the value. */
  const CommandHead := Utility + " -s '"
  const CommandMiddle := "' -- "

  /** The shell command `send_command` runs for a control name and a value. */
  function CommandLine(name: string, value: string): string {
    CommandHead + (name + (CommandMiddle + value))
  }

  /** Reading a command line back into the control name and the value. */
  function ParseCommandLine(cmd: string): (r: Option<(string, string)>)
    ensures r.Some? ==> CommandLine(r.value.0, r.value.1) == cmd && '\'' !in r.value.0
  {
    if !StartsWith(cmd, CommandHead) then None
    else
      var rest := cmd[|CommandHead|..];
      assert cmd == CommandHead + rest;
      match CharIndex(rest, '\'')
      case None => None
      case Some(q) =>
        var name := rest[..q];
        var tail := rest[q..];
        assert rest == name + tail;
        if !StartsWith(tail, CommandMiddle) then None
        else
          var value := tail[|CommandMiddle|..];
          assert tail == CommandMiddle + value;
          Some((name, value))
  }

  /** Any control name without a quote and any value are recovered from the command they produce. */
  lemma ParseCommandOfCommand(name: string, value: string)
    requires '\'' !in name
    ensures ParseCommandLine(CommandLine(name, value)) == Some((name, value))
  {
    var cmd := CommandLine(name, value);
    var tail := CommandMiddle + value;
    var rest := name + tail;
    assert cmd == CommandHead + rest;
    assert cmd[|CommandHead|..] == rest;
    assert rest[..|name|] == name;
    assert rest[|name|..] == tail;
    assert rest[|name|] == '\'';
    assert CharIndex(rest, '\'') == Some(|name|);
    assert tail[..|CommandMiddle|] == CommandMiddle;
    assert tail[|CommandMiddle|..] == value;
  }

  /** Two quote-free commands are the same text only when they name the same control and value. */
  lemma CommandLineInjective(n1: string, v1: string, n2: string, v2: string)
    requires '\'' !in n1 && '\'' !in n2
    requires CommandLine(n1, v1) == CommandLine(n2, v2)
    ensures n1 == n2 && v1 == v2
  {
    ParseCommandOfCommand(n1, v1);
    ParseCommandOfCommand(n2, v2);
  }

  /** What a command leaves behind: the line in the message area, then the execution. */
  datatype Event = Logged(message: string) | Executed(command: string)

  /** The events of one `send_command(name, value)`. */
  function Sent(name: string, value: string): (es: seq<Event>)
    ensures |es| == 2 && es[1].Executed? && es[0] == Logged("-I- " + es[1].command)
    ensures '\'' !in name ==> ParseCommandLine(es[1].command) == Some((name, value))
  {
    var es := [Logged("-I- " + CommandLine(name, value)), Executed(CommandLine(name, value))];
    if '\'' in name then es
    else
      ParseCommandOfCommand(name, value);
      es
  }

  /** The fixed moves of the motor buttons: (control, offset). */
  const TiltUpMove := ("Tilt (relative)", -500)
  const TiltDownMove := ("Tilt (relative)", 500)
  const PanLeftMove := ("Pan (relative)", -700)
  const PanRightMove := ("Pan (relative)", 700)

  /**
    The motor buttons address controls that `save_control` files as motors,
    opposite buttons move the same control by opposite offsets, and each
    offset can be read back from the command it produces.
  */
  lemma MotorMoves()
    ensures IsMotorName(TiltUpMove.0) && IsMotorName(PanLeftMove.0)
    ensures TiltUpMove.0 == TiltDownMove.0 && TiltUpMove.1 + TiltDownMove.1 == 0
    ensures PanLeftMove.0 == PanRightMove.0 && PanLeftMove.1 + PanRightMove.1 == 0
    ensures forall m | m in {TiltUpMove, TiltDownMove, PanLeftMove, PanRightMove} ::
              var parsed := ParseCommandLine(CommandLine(m.0, IntToString(m.1)));
              parsed.Some? && parsed.value.0 == m.0 && LeadingInt(parsed.value.1) == m.1
  {
    assert OccursAt(TiltUpMove.0, "Tilt", 0);
    assert OccursAt(PanLeftMove.0, "Pan", 0);
    forall m | m in {TiltUpMove, TiltDownMove, PanLeftMove, PanRightMove}
      ensures var parsed := ParseCommandLine(CommandLine(m.0, IntToString(m.1)));
              parsed.Some? && parsed.value.0 == m.0 && LeadingInt(parsed.value.1) == m.1
    {
      assert '\'' !in m.0;
      ParseCommandOfCommand(m.0, IntToString(m.1));
      LeadingIntOfIntToString(m.1);
    }
  }

  /** A table of control objects as a table of their attributes. */
  ghost function Attributes(m: map<string, Control>): map<string, ControlInfo>
    reads m.Values
  {
    map n | n in m :: m[n].Value()
  }

  lemma AttributesStore(m: map<string, Control>, n: string, c: Control)
    ensures Attributes(m[n := c]) == Attributes(m)[n := c.Value()]
  {
  }

  /** Controls whose fields did not change keep their attributes. */
  twostate lemma AttributesKept(m: map<string, Control>)
    requires forall n | n in m :: unchanged(m[n])
    ensures Attributes(m) == old(Attributes(m))
  {
  }

  /** The controller: the tables of discovered controls, the device, standard output and the command trace. */
  class CamCtrl {
    var motorControls: map<string, Control>
    var sliderControls: map<string, Control>
    var toggleControls: map<string, Control>
    var choiceControls: map<string, Control>
    var device: string
    var console: seq<string>
    var trace: seq<Event>

    /** The controls held by the tables. */
    ghost function Stored(): set<Control>
      reads this`motorControls, this`sliderControls, this`toggleControls, this`choiceControls
    {
      motorControls.Values + sliderControls.Values + toggleControls.Values + choiceControls.Values
    }

    /** The tables as values. */
    ghost function Snapshot(): Tables
      reads this`motorControls, this`sliderControls, this`toggleControls, this`choiceControls, Stored()
    {
      Tables(Attributes(motorControls), Attributes(sliderControls), Attributes(toggleControls), Attributes(choiceControls))
    }

    constructor ()
      ensures Snapshot() == NoTables && Stored() == {}
      ensures device == "" && console == [] && trace == []
    {
      motorControls, sliderControls, toggleControls, choiceControls := map[], map[], map[], map[];
      device, console, trace := "", [], [];
    }

    /** `save_control(control)`. */
    method SaveControl(control: Control?)
      modifies this
      ensures control == null ==> Snapshot() == old(Snapshot()) && console == old(console)
      ensures control != null ==> Snapshot() == Save(old(Snapshot()), control.Value()).0
      ensures control != null ==> console == old(console) + Printed(Save(old(Snapshot()), control.Value()).1)
      ensures Stored() <= old(Stored()) + (if control == null then {} else {control})
      ensures device == old(device) && trace == old(trace)
    {
      if control == null {
        return;
      }
      var g := GroupOf(control.Value());
      FileControl(g, control);
      if g.NoGroup? {
        console := console + [g.diagnostic];
      }
    }

    /** Stores `control` in the table of group `g` under its name. */
    method FileControl(g: Group, control: Control)
      modifies this
      ensures Snapshot() == File(old(Snapshot()), g, control.Value())
      ensures Stored() <= old(Stored()) + {control}
      ensures device == old(device) && trace == old(trace) && console == old(console)
    {
      var motor, slider, toggle, choice := motorControls, sliderControls, toggleControls, choiceControls;
      match g {
      case MotorGroup =>
        AttributesStore(motor, control.name, control);
        motor := motor[control.name := control];
      case SliderGroup =>
        AttributesStore(slider, control.name, control);
        slider := slider[control.name := control];
      case ToggleGroup =>
        AttributesStore(toggle, control.name, control);
        toggle := toggle[control.name := control];
      case ChoiceGroup =>
        AttributesStore(choice, control.name, control);
        choice := choice[control.name := control];
      case NoGroup(_) =>
      }
      assert Tables(Attributes(motor), Attributes(slider), Attributes(toggle), Attributes(choice)) == File(Snapshot(), g, control.Value());
      motorControls, sliderControls, toggleControls, choiceControls := motor, slider, toggle, choice;
      AttributesKept(motor);
      AttributesKept(slider);
      AttributesKept(toggle);
      AttributesKept(choice);
    }

    /** The objects hold the parser state `p`: tables, device, printed lines after `base`, current control. */
    ghost predicate Mirrors(p: Parser, current: Control?, base: seq<string>)
      reads this, Stored(), current
    {
      && Snapshot() == p.tables
      && device == p.device
      && console == base + p.console
      && (current == null <==> p.current.None?)
      && (current != null ==> current.Value() == p.current.value && current !in Stored())
    }

    /**
      `parse_controls` over the utility's listing, one line at a time. The
      tables, the device and what is printed end up as `Discover` says.
    */
    method ParseControls(lines: seq<string>)
      requires WellFormed(Classified(lines))
      modifies this
      ensures var p := Discover(Classified(lines));
              Snapshot() == p.tables && device == p.device && console == old(console) + p.console
      ensures trace == old(trace)
    {
      ReadListing(Classified(lines));
    }

    /** The loop of `parse_controls` over the listing's lines, each already matched against the patterns. */
    method ReadListing(ks: seq<LineKind>)
      requires WellFormed(ks)
      modifies this
      ensures var p := Discover(ks);
              Snapshot() == p.tables && device == p.device && console == old(console) + p.console
      ensures trace == old(trace)
    {
      ghost var base := console;
      BeginParse();
      var current := ReadLines(ks, base);
      FlushCurrent(current, Run(ks), base);
    }

    /** The loop itself: every line, in order, from no current control to the run over the whole listing. */
    method ReadLines(ks: seq<LineKind>, ghost base: seq<string>) returns (current: Control?)
      requires WellFormed(ks) && Mirrors(Initial, null, base)
      modifies this
      ensures Mirrors(Run(ks), current, base)
      ensures trace == old(trace)
    {
      current := null;
      assert ks[..0] == [];
      var i := 0;
      while i < |ks|
        invariant 0 <= i <= |ks|
        invariant WellFormed(ks[..i])
        invariant current != null ==> fresh(current)
        invariant Mirrors(Run(ks[..i]), current, base)
        invariant trace == old(trace)
      {
        current := ReadNext(ks, i, current, base);
        i := i + 1;
      }
      assert ks[..|ks|] == ks;
    }

    /** One iteration of the loop: line `i` advances the run over the lines before it by one step. */
    method ReadNext(ks: seq<LineKind>, i: nat, current: Control?, ghost base: seq<string>) returns (next: Control?)
      requires WellFormed(ks) && i < |ks| && WellFormed(ks[..i])
      requires Mirrors(Run(ks[..i]), current, base)
      modifies this, current
      ensures WellFormed(ks[..i + 1]) && Mirrors(Run(ks[..i + 1]), next, base)
      ensures next != null ==> next == current || fresh(next)
      ensures trace == old(trace)
    {
      RunNext(ks, i);
      next := ReadLine(ks[i], current, Run(ks[..i]), base);
    }

    /** What `parse_controls` does before its loop: the message, four empty tables and no device. */
    method BeginParse()
      modifies this
      ensures Mirrors(Initial, null, old(console))
      ensures trace == old(trace)
    {
      console := console + [QueryingMessage];
      motorControls, sliderControls, toggleControls, choiceControls := map[], map[], map[], map[];
      device := "";
      assert Snapshot() == NoTables;
    }

    /** The `save_control(current_control)` after the loop. */
    method FlushCurrent(current: Control?, ghost p: Parser, ghost base: seq<string>)
      requires Mirrors(p, current, base)
      modifies this
      ensures var q := Flush(p);
              Snapshot() == q.tables && device == q.device && console == base + q.console
      ensures trace == old(trace)
    {
      SaveControl(current);
    }

    /** One pass of the loop in `parse_controls`: the line's pattern decides what changes. */
    method ReadLine(k: LineKind, current: Control?, ghost p: Parser, ghost base: seq<string>) returns (next: Control?)
      requires Mirrors(p, current, base)
      requires p.current.Some? || !NeedsControl(k)
      modifies this, current
      ensures Mirrors(Step(p, k), next, base)
      ensures next != null ==> next == current || fresh(next)
      ensures trace == old(trace)
    {
      next := current;
      match k
      case Header(d) =>
        ReadHeader(d, current, p, base);
      case ControlStart(name) =>
        next := ReadControlStart(name, current, p, base);
      case FlagsField =>
      case Unmatched =>
      case _ =>
        if current != null {
          ReadField(k, current, p, base);
        }
    }

    /** A header line: the device is set and printed; no control is saved or started. */
    method ReadHeader(d: string, current: Control?, ghost p: Parser, ghost base: seq<string>)
      requires Mirrors(p, current, base)
      modifies this`device, this`console
      ensures Mirrors(Step(p, Header(d)), current, base)
    {
      device := d;
      console := console + ["device: " + d];
    }

    /** A colon-free line: the current control is saved and a new one, named by the line, takes its place. */
    method ReadControlStart(name: string, current: Control?, ghost p: Parser, ghost base: seq<string>) returns (next: Control)
      requires Mirrors(p, current, base)
      modifies this
      ensures Mirrors(Step(p, ControlStart(name)), next, base)
      ensures fresh(next)
      ensures trace == old(trace)
    {
      SaveControl(current);
      next := new Control(name);
    }

    /** A Type, Values or Default line: only the current control and the console change. */
    method ReadField(k: LineKind, current: Control, ghost p: Parser, ghost base: seq<string>)
      requires NeedsControl(k)
      requires Mirrors(p, current, base)
      modifies current, this`console
      ensures Mirrors(Step(p, k), current, base)
    {
      ghost var c := current.Value();
      ghost var tables := Snapshot();
      assert current !in motorControls.Values && current !in sliderControls.Values;
      assert current !in toggleControls.Values && current !in choiceControls.Values;
      match k {
        case TypeField(w) =>
          current.typeName := Some(w);
        case ValuesField(text) =>
          var diagnostic := current.SetValues(text);
          console := console + Printed(diagnostic);
        case DefaultField(token) =>
          current.defaultValue := Some(LeadingInt(token));
      }
      assert current.Value() == Apply(c, k);
      AttributesKept(motorControls);
      AttributesKept(sliderControls);
      AttributesKept(toggleControls);
      AttributesKept(choiceControls);
      assert Snapshot() == tables;
      assert console == base + p.console + ApplyPrinted(c, k);
      assert Step(p, k) == p.(current := Some(Apply(c, k)), console := p.console + ApplyPrinted(c, k));
    }

    /** `send_command(name, value)`: the command is logged, then run. */
    method SendCommand(name: string, value: string)
      modifies this`trace
      ensures trace == old(trace) + Sent(name, value)
    {
      var command := CommandLine(name, value);
      trace := trace + [Logged("-I- " + command)];
      trace := trace + [Executed(command)];
    }

    /** Moves a motor control by a fixed offset. */
    method Move(move: (string, int))
      modifies this`trace
      ensures trace == old(trace) + Sent(move.0, IntToString(move.1))
    {
      SendCommand(move.0, IntToString(move.1));
    }

    method TiltUp()
      modifies this`trace
      ensures trace == old(trace) + Sent("Tilt (relative)", IntToString(-500))
    {
      Move(TiltUpMove);
    }

    method TiltDown()
      modifies this`trace
      ensures trace == old(trace) + Sent("Tilt (relative)", IntToString(500))
    {
      Move(TiltDownMove);
    }

    method PanLeft()
      modifies this`trace
      ensures trace == old(trace) + Sent("Pan (relative)", IntToString(-700))
    {
      Move(PanLeftMove);
    }

    method PanRight()
      modifies this`trace
      ensures trace == old(trace) + Sent("Pan (relative)", IntToString(700))
    {
      Move(PanRightMove);
    }

    /** Both motors back to their origin: pan first, then tilt. */
    method ResetToOrigin()
      modifies this`trace
      ensures trace == old(trace) + Sent("Pan Reset", IntToString(0)) + Sent("Tilt Reset", IntToString(0))
    {
      SendCommand("Pan Reset", IntToString(0));
      SendCommand("Tilt Reset", IntToString(0));
    }

    /** A check button changed: its variable's value is sent as it is. */
    method ToggleButton(button: string, value: string)
      modifies this`trace
      ensures trace == old(trace) + Sent(button, value)
    {
      SendCommand(button, value);
    }

    /** A slider moved: its position, truncated to an integer by the caller, is sent. */
    method SlidingBar(bar: string, position: int)
      modifies this`trace
      ensures trace == old(trace) + Sent(bar, IntToString(position))
    {
      SendCommand(bar, IntToString(position));
    }

    /**
      An entry of a combo box was selected: the value whose caption it is
      goes to the camera, or the empty text when no value has that caption.
    */
    method ComboBox(box: string, selected: string)
      requires box in choiceControls && choiceControls[box].choices.Some?
      modifies this`trace
      ensures var h := old(choiceControls[box].choices.value);
              match KeyOf(h, selected)
              case Some(v) => trace == old(trace) + Sent(box, v) && (UniqueKeys(h) ==> Get(h, v) == Some(selected))
              case None => trace == old(trace) + Sent(box, "") && forall k :: Get(h, k) != Some(selected)
    {
      var h := choiceControls[box].choices.value;
      var key := KeyOf(h, selected);
      if key.Some? {
        if UniqueKeys(h) {
          KeyOfThenGet(h, selected);
        }
        SendCommand(box, key.value);
      } else {
        forall k ensures Get(h, k) != Some(selected) {
          if Get(h, k) == Some(selected) {
            GetThenKeyOf(h, k, selected);
          }
        }
        SendCommand(box, "");
      }
    }

    /**
      `initialize`: without the utility the program reports it and exits
      with status 1; otherwise it reads the controls from the listing and
      goes on to build its window (`None`).
    */
    method Initialize(executable: bool, lines: seq<string>) returns (exitStatus: Option<int>)
      requires executable ==> WellFormed(Classified(lines))
      modifies this
      ensures !executable ==> exitStatus == Some(1) && console == old(console) + [MissingUtilityMessage]
      ensures !executable ==> Snapshot() == old(Snapshot()) && device == old(device)
      ensures executable ==> exitStatus.None?
      ensures executable ==>
                var p := Discover(Classified(lines));
                Snapshot() == p.tables && device == p.device && console == old(console) + p.console
      ensures trace == old(trace)
    {
      if !executable {
        console := console + [MissingUtilityMessage];
        return Some(1);
      }
      ParseControls(lines);
      return None;
    }
  }
}
