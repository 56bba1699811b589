/**
  The regular expressions of camctrl.rb, one function each, written out by
  hand. Each returns what Ruby's match would capture, taking the greedy
  quantifiers and the backtracking they imply into account, or `None`
  when the pattern does not match. A line is a single line of the
  discovery output with its line terminator removed.
*/
module Patterns {
  import opened Options
  import opened Text

  /** The first position of character `c` in `s`. */
  function CharIndex(s: string, c: char): (r: Option<nat>)
    ensures r.Some? ==> r.value < |s| && s[r.value] == c && c !in s[..r.value]
    ensures r.None? ==> c !in s
  {
    if s == [] then None
    else if s[0] == c then Some(0)
    else
      var r := CharIndex(s[1..], c);
      if r.None? then None
      else
        assert s[..r.value + 1] == [s[0]] + s[1..][..r.value];
        Some(r.value + 1)
  }

  // ---------- The device header: Listing available .* video([0-9]+)

  const ListingPrefix := "Listing available "
  const VideoMarker := " video"

  /** " video" followed by a digit starts at `j`. */
  predicate VideoAt(s: string, j: nat) {
    OccursAt(s, VideoMarker, j) && j + |VideoMarker| < |s| && IsDigit(s[j + |VideoMarker|])
  }

  /** The last position in [lo, hi) where `VideoAt` holds: where the greedy `.*` stops. */
  function LastVideo(s: string, lo: nat, hi: nat): (r: Option<nat>)
    ensures r.Some? ==> lo <= r.value < hi && VideoAt(s, r.value)
    ensures r.Some? ==> forall j :: r.value < j < hi ==> !VideoAt(s, j)
    ensures r.None? ==> forall j :: lo <= j < hi ==> !VideoAt(s, j)
    decreases hi
  {
    if hi <= lo then None
    else if VideoAt(s, hi - 1) then Some(hi - 1)
    else LastVideo(s, lo, hi - 1)
  }

  /** `j` is where the last " video" followed by a digit in `s` starts. */
  predicate LastVideoAt(s: string, j: nat) {
    VideoAt(s, j) && forall j' :: j < j' < |s| ==> !VideoAt(s, j')
  }

  /** The run of digits `s` starts with: what a greedy `[0-9]+` captures there. */
  function DigitRun(s: string): string {
    s[..Span(s, Digit)]
  }

  /**
    The device a header line names, `"video" + $1`; `None` when the line is
    no header. The greedy `.*` puts the capture after the line's last
    " video" that a digit follows.
  */
  function HeaderDevice(l: string): (r: Option<string>)
    ensures r.Some? <==> exists i: nat, j: nat :: OccursAt(l, ListingPrefix, i) && i + |ListingPrefix| <= j && VideoAt(l, j)
    ensures r.Some? ==> exists j: nat :: LastVideoAt(l, j) && r.value == "video" + DigitRun(l[j + |VideoMarker|..])
    ensures r.Some? ==> |r.value| > 5 && r.value[..5] == "video" && AllIn(r.value[5..], Digit)
  {
    match FindFrom(l, ListingPrefix, 0)
    case None => None
    case Some(i) =>
      match LastVideo(l, i + |ListingPrefix|, |l|)
      case None => None
      case Some(j) =>
        var digits := l[j + |VideoMarker|..];
        var n := Span(digits, Digit);
        assert n > 0;
        assert LastVideoAt(l, j);
        Some("video" + DigitRun(digits))
  }

  /** There is only one last position. */
  lemma LastVideoUnique(l: string, j: nat, k: nat)
    requires LastVideoAt(l, j) && LastVideoAt(l, k)
    ensures j == k
  {
  }

  /** No " video" starts inside a stretch without blanks. */
  lemma NoVideoPast(l: string, j: nat)
    requires j < |l| && ' ' !in l[j + 1..]
    ensures forall j' :: j < j' < |l| ==> !VideoAt(l, j')
  {
    forall j' | j < j' < |l| ensures !VideoAt(l, j') {
      assert l[j'] == l[j + 1..][j' - j - 1];
      OccursAtFirst(l, VideoMarker, j');
    }
  }

  /** A line that starts with the prefix, and whose last " video" and digit are at `j`, names the digits there. */
  lemma HeaderDeviceOf(l: string, j: nat, d: string)
    requires OccursAt(l, ListingPrefix, 0) && |ListingPrefix| <= j && LastVideoAt(l, j)
    requires DigitRun(l[j + |VideoMarker|..]) == d
    ensures HeaderDevice(l) == Some("video" + d)
  {
    assert HeaderDevice(l).Some?;
    var k: nat :| LastVideoAt(l, k) && HeaderDevice(l).value == "video" + DigitRun(l[k + |VideoMarker|..]);
    LastVideoUnique(l, j, k);
  }

  /**
    A header naming its device after "Listing available ", and followed by
    text that neither continues the number nor holds a blank, gives exactly
    that device.
  */
  lemma HeaderOfListing(w: string, d: string, rest: string)
    requires d != [] && AllIn(d, Digit)
    requires rest == [] || !IsDigit(rest[0])
    requires ' ' !in rest
    ensures HeaderDevice(ListingPrefix + (w + (VideoMarker + (d + rest)))) == Some("video" + d)
  {
    var l := ListingPrefix + (w + (VideoMarker + (d + rest)));
    var j := |ListingPrefix| + |w|;
    assert OccursAt(l, ListingPrefix, 0) by {
      assert l[..|ListingPrefix|] == ListingPrefix;
    }
    assert VideoAt(l, j) by {
      assert l[j..j + |VideoMarker|] == VideoMarker;
      assert l[j + |VideoMarker|] == d[0];
    }
    assert forall j' :: j < j' < |l| ==> !VideoAt(l, j') by {
      assert l[j + 1..] == "video" + (d + rest);
      NoVideoPast(l, j);
    }
    assert DigitRun(l[j + |VideoMarker|..]) == d by {
      assert l[j + |VideoMarker|..] == d + rest;
      SpanConcat(d, rest, Digit);
      assert (d + rest)[..|d|] == d;
    }
    HeaderDeviceOf(l, j, d);
  }

  /** The header the utility prints for the first camera names `video0`. */
  lemma FirstCameraHeader(l: string)
    requires l == "Listing available controls for device video0:"
    ensures HeaderDevice(l) == Some("video0")
  {
    FirstCameraHeaderText();
    HeaderOfListing("controls for device", "0", ":");
    assert "video" + "0" == "video0";
  }

  lemma FirstCameraHeaderText()
    ensures ListingPrefix + ("controls for device" + (VideoMarker + ("0" + ":"))) ==
            "Listing available controls for device video0:"
  {
    assert "0" + ":" == "0:";
    assert VideoMarker + "0:" == " video0:";
    assert "controls for device" + " video0:" == "controls for device video0:";
  }

  // ---------- A control's name: ^\s*([^:]+)$

  /**
    The name a colon-free line starts a control with: the line without its
    leading `\s` run. A line of blanks still matches, by backtracking, and
    names its last blank.
  */
  function ControlName(l: string): (r: Option<string>)
    ensures r.Some? <==> l != [] && ':' !in l
    ensures r.Some? ==> r.value != [] && |r.value| <= |l| && r.value == l[|l| - |r.value|..]
    ensures r.Some? ==> AllIn(l[..|l| - |r.value|], Space)
    ensures r.Some? && StripLeading(l) != [] ==> r.value == StripLeading(l) && !IsSpace(r.value[0])
    ensures r.Some? && StripLeading(l) == [] ==> r.value == l[|l| - 1..]
  {
    if l == [] || ':' in l then None
    else
      var name := StripLeading(l);
      if name != [] then Some(name)
      else
        assert l[..|l|] == l;
        Some(l[|l| - 1..])
  }

  // ---------- Field lines: ^\s*<Word>\s+: and ^\s*<Word>\s*:

  /**
    When the line, after its leading `\s` run, starts with `word`, a `\s`
    run (a non-empty one when `spaceRequired`) and a colon: the rest of the
    line after the colon.
  */
  function AfterColon(l: string, word: string, spaceRequired: bool): (r: Option<string>)
    ensures r.Some? ==> |r.value| < |l| && r.value == l[|l| - |r.value|..] && l[|l| - |r.value| - 1] == ':'
    ensures r.Some? ==> StartsWith(StripLeading(l), word)
  {
    var s := StripLeading(l);
    if !StartsWith(s, word) then None
    else
      var t := s[|word|..];
      var n := Span(t, Space);
      if (spaceRequired && n == 0) || n == |t| || t[n] != ':' then None
      else
        assert t[n + 1..] == l[|l| - |t[n + 1..]|..];
        Some(t[n + 1..])
  }

  /** `l` is blanks `ws`, then `word`, blanks `sp`, a colon and `rest`. */
  predicate ColonLine(l: string, ws: string, word: string, sp: string, rest: string) {
    l == ws + (word + (sp + (":" + rest))) && AllIn(ws, Space) && AllIn(sp, Space)
  }

  /** What `AfterColon` accepts: blanks `ws`, `word`, then a tail `t` holding blanks, the colon and the result. */
  lemma AfterColonParts(l: string, word: string, spaceRequired: bool, after: string) returns (ws: string, t: string)
    requires AfterColon(l, word, spaceRequired) == Some(after)
    ensures l == ws + (word + t) && AllIn(ws, Space)
    ensures Span(t, Space) < |t| && t[Span(t, Space)] == ':' && after == t[Span(t, Space) + 1..]
    ensures spaceRequired ==> Span(t, Space) > 0
  {
    var n0 := Span(l, Space);
    var s := l[n0..];
    assert s == StripLeading(l) && StartsWith(s, word);
    ws, t := l[..n0], s[|word|..];
    var n := Span(t, Space);
    assert !((spaceRequired && n == 0) || n == |t| || t[n] != ':') && after == t[n + 1..];
    assert s == word + t by {
      assert s == s[..|word|] + s[|word|..];
    }
    assert l == ws + s;
  }

  /** Whatever `AfterColon` accepts is a line of that shape, and the result is what follows the colon. */
  lemma AfterColonShape(l: string, word: string, spaceRequired: bool, after: string) returns (ws: string, sp: string)
    requires AfterColon(l, word, spaceRequired) == Some(after)
    ensures ColonLine(l, ws, word, sp, after) && (spaceRequired ==> sp != [])
  {
    var t;
    ws, t := AfterColonParts(l, word, spaceRequired, after);
    sp := ColonTail(t, after);
  }

  /** The tail after the word: blanks `sp`, the colon, and what follows it. */
  lemma ColonTail(t: string, after: string) returns (sp: string)
    requires Span(t, Space) < |t| && t[Span(t, Space)] == ':' && after == t[Span(t, Space) + 1..]
    ensures t == sp + (":" + after) && AllIn(sp, Space) && |sp| == Span(t, Space)
  {
    var n := Span(t, Space);
    sp := t[..n];
    assert t == t[..n] + ([t[n]] + t[n + 1..]);
  }

  lemma AfterColonSplits(l: string, word: string, spaceRequired: bool)
    requires AfterColon(l, word, spaceRequired).Some?
    ensures exists ws, sp :: ColonLine(l, ws, word, sp, AfterColon(l, word, spaceRequired).value) &&
                             (spaceRequired ==> sp != [])
  {
    var ws, sp := AfterColonShape(l, word, spaceRequired, AfterColon(l, word, spaceRequired).value);
  }

  /** A line of that shape is accepted, and gives what follows the colon. */
  lemma AfterColonOf(l: string, ws: string, word: string, sp: string, rest: string, spaceRequired: bool)
    requires ColonLine(l, ws, word, sp, rest)
    requires word != [] && !IsSpace(word[0])
    requires spaceRequired ==> sp != []
    ensures AfterColon(l, word, spaceRequired) == Some(rest)
  {
    var t := sp + (":" + rest);
    var s := word + t;
    StripLeadingOf(l, ws, s);
    assert StartsWith(s, word) && s[|word|..] == t;
    ColonTailOf(t, sp, rest);
  }

  /** Stripping blanks `ws` off a line that continues with a non-blank leaves the rest. */
  lemma StripLeadingOf(l: string, ws: string, s: string)
    requires l == ws + s && AllIn(ws, Space) && s != [] && !IsSpace(s[0])
    ensures StripLeading(l) == s
  {
    SpanConcat(ws, s, Space);
    assert Span(s, Space) == 0;
    assert l[|ws|..] == s;
  }

  /** Blanks `sp`, a colon and `rest`: the blank run stops at the colon. */
  lemma ColonTailOf(t: string, sp: string, rest: string)
    requires t == sp + (":" + rest) && AllIn(sp, Space)
    ensures Span(t, Space) == |sp| && t[|sp|] == ':' && t[|sp| + 1..] == rest
  {
    SpanConcat(sp, ":" + rest, Space);
    assert Span(":" + rest, Space) == 0;
  }

  /** `l` reads `Type`, a colon with blanks on both sides, the word `w` and then a non-word character or nothing. */
  predicate TypeLine(l: string, ws: string, sp: string, sp2: string, w: string, rest: string) {
    && ColonLine(l, ws, "Type", sp, sp2 + (w + rest))
    && sp != [] && sp2 != [] && AllIn(sp2, Space)
    && w != [] && AllIn(w, Word) && (rest == [] || !IsWordChar(rest[0]))
  }

  lemma TypeLineOf(l: string, ws: string, sp: string, after: string, n: nat, w: string)
    requires ColonLine(l, ws, "Type", sp, after) && sp != []
    requires n == Span(after, Space) && n > 0
    requires w == after[n..][..Span(after[n..], Word)] && w != []
    ensures exists ws, sp, sp2, rest :: TypeLine(l, ws, sp, sp2, w, rest)
  {
    var u := after[n..];
    var rest := u[|w|..];
    assert after == after[..n] + (w + rest) by {
      assert u == w + rest;
      assert after == after[..n] + u;
    }
    assert rest == [] || !IsWordChar(rest[0]) by {
      if rest != [] { assert rest[0] == u[|w|]; }
    }
    assert TypeLine(l, ws, sp, after[..n], w, rest);
  }

  /** `^\s*Type\s+:\s+(\w+)`: the type word. */
  function TypeWord(l: string): (r: Option<string>)
    ensures r.Some? ==> r.value != [] && AllIn(r.value, Word)
    ensures r.Some? ==> StartsWith(StripLeading(l), "Type")
    ensures r.Some? ==> exists ws, sp, sp2, rest :: TypeLine(l, ws, sp, sp2, r.value, rest)
  {
    match AfterColon(l, "Type", true)
    case None => None
    case Some(after) =>
      var n := Span(after, Space);
      var w := after[n..][..Span(after[n..], Word)];
      if n == 0 || w == [] then None
      else
        AfterColonSplits(l, "Type", true);
        var ws, sp :| ColonLine(l, ws, "Type", sp, after) && sp != [];
        TypeLineOf(l, ws, sp, after, n, w);
        Some(w)
  }

  /** Every line of the Type shape gives its word. */
  lemma TypeWordOf(l: string, ws: string, sp: string, sp2: string, w: string, rest: string)
    requires TypeLine(l, ws, sp, sp2, w, rest)
    ensures TypeWord(l) == Some(w)
  {
    var after := sp2 + (w + rest);
    AfterColonOf(l, ws, "Type", sp, after, true);
    SpanConcat(sp2, w + rest, Space);
    assert Span(w + rest, Space) == 0;
    assert after[|sp2|..] == w + rest;
    SpanConcat(w, rest, Word);
    assert Span(rest, Word) == 0;
    assert (w + rest)[..|w|] == w;
  }

  /** `^\s*Flags\s+:` */
  predicate IsFlagsLine(l: string) {
    AfterColon(l, "Flags", true).Some?
  }

  /**
    After an opening bracket, `\s*([^<excluded>]+)\s+<close>,` can end its
    capture at `e` (exclusive).
  */
  predicate TailAt(r: string, excluded: char, close: char, e: nat) {
    1 <= e < |r| && excluded !in r[..e] && IsSpace(r[e]) &&
    var f := e + Span(r[e..], Space);
    f + 1 < |r| && r[f] == close && r[f + 1] == ','
  }

  /** `e` is the last position where the capture can end: where the greedy `+` stops. */
  predicate LastTailAt(r: string, excluded: char, close: char, e: nat) {
    TailAt(r, excluded, close, e) && forall e' :: e < e' < |r| ==> !TailAt(r, excluded, close, e')
  }

  /** The last true position below `hi`. */
  function LastTrue(bs: seq<bool>, hi: nat): (res: Option<nat>)
    requires hi <= |bs|
    ensures res.Some? ==> res.value < hi && bs[res.value]
    ensures res.Some? ==> forall e :: res.value < e < hi ==> !bs[e]
    ensures res.None? ==> forall e :: 0 <= e < hi ==> !bs[e]
    decreases hi
  {
    if hi == 0 then None
    else if bs[hi - 1] then Some(hi - 1)
    else LastTrue(bs, hi - 1)
  }

  /** For each position of `r`, whether the capture may end there. */
  function Tails(r: string, excluded: char, close: char): (bs: seq<bool>)
    ensures |bs| == |r|
  {
    seq(|r|, e requires 0 <= e < |r| => TailAt(r, excluded, close, e))
  }

  /**
    `c` is the capture that ends at the last possible end `e`: it is
    preceded only by blanks, and starts with a non-blank unless it is a
    single character the `\s*` gave back.
  */
  predicate CaptureEndsAt(r: string, excluded: char, close: char, c: string, e: nat) {
    && LastTailAt(r, excluded, close, e) && |c| <= e && c == r[e - |c|..e]
    && AllIn(r[..e - |c|], Space) && (|c| > 1 ==> !IsSpace(c[0]))
  }

  /**
    `\s*([^<excluded>]+)\s+<close>,` matched just after the opening bracket:
    the capture. It ends at the last position that can end it, and starts
    after the leading blanks, which the `\s*` gives back only when the
    capture would otherwise be empty.
  */
  function BracketedText(r: string, excluded: char, close: char): (res: Option<string>)
    ensures res.Some? ==> res.value != [] && excluded !in res.value
    ensures res.None? <==> forall e: nat :: e < |r| ==> !TailAt(r, excluded, close, e)
    ensures res.Some? ==> exists e: nat :: CaptureEndsAt(r, excluded, close, res.value, e)
  {
    LastTail(r, excluded, close);
    match LastTrue(Tails(r, excluded, close), |r|)
    case None => None
    case Some(e) =>
      var lead := Span(r, Space);
      var a := if lead < e then lead else e - 1;
      CaptureAt(r, excluded, e, a);
      CaptureEndsOf(r, excluded, close, e, a);
      Some(r[a..e])
  }

  /** The last true entry of `Tails` is the last position where the capture can end. */
  lemma LastTail(r: string, excluded: char, close: char)
    ensures var t := LastTrue(Tails(r, excluded, close), |r|);
            && (t.None? <==> forall e: nat :: e < |r| ==> !TailAt(r, excluded, close, e))
            && (t.Some? ==> LastTailAt(r, excluded, close, t.value))
  {
    var tails := Tails(r, excluded, close);
    assert forall e :: 0 <= e < |r| ==> tails[e] == TailAt(r, excluded, close, e);
  }

  /** The capture that ends at `e` and starts after the leading blanks. */
  lemma CaptureAt(r: string, excluded: char, e: nat, a: nat)
    requires 1 <= e < |r| && excluded !in r[..e]
    requires a == if Span(r, Space) < e then Span(r, Space) else e - 1
    ensures a < e && excluded !in r[a..e]
    ensures AllIn(r[..a], Space) && (e - a > 1 ==> !IsSpace(r[a]))
  {
    var lead := Span(r, Space);
    assert excluded !in r[a..e] by {
      forall i | a <= i < e ensures r[a..e][i - a] == r[..e][i] { }
    }
    assert AllIn(r[..a], Space) by {
      forall i | 0 <= i < a ensures r[..a][i] == r[..lead][i] { }
    }
  }

  /** A capture from `a` to the last possible end `e`, behind blanks only, is the one `CaptureEndsAt` describes. */
  lemma CaptureEndsOf(r: string, excluded: char, close: char, e: nat, a: nat)
    requires LastTailAt(r, excluded, close, e) && a < e
    requires AllIn(r[..a], Space) && (e - a > 1 ==> !IsSpace(r[a]))
    ensures CaptureEndsAt(r, excluded, close, r[a..e], e)
  {
    assert e - |r[a..e]| == a;
  }

  /**
    A capture followed by one blank, the closing character and a comma, and
    preceded only by blanks, is read back whole.
  */
  lemma BracketedTextOf(r: string, ws: string, body: string, excluded: char, close: char)
    requires r == ws + (body + [' ', close, ','])
    requires AllIn(ws, Space) && body != [] && !IsSpace(body[0]) && excluded !in body
    requires !IsSpace(excluded) && !IsSpace(close)
    ensures BracketedText(r, excluded, close) == Some(body)
  {
    var e := |ws| + |body|;
    assert TailAt(r, excluded, close, e) by {
      assert r[..e] == ws + body;
      assert excluded !in ws by {
        forall i | 0 <= i < |ws| ensures ws[i] != excluded { assert InClass(ws[i], Space); }
      }
      assert r[e..] == [' ', close, ','];
      assert Span(r[e..], Space) == 1 by { assert r[e..][1..] == [close, ',']; }
    }
    assert forall e' :: e < e' < |r| ==> !TailAt(r, excluded, close, e') by {
      forall e' | e < e' < |r| ensures !TailAt(r, excluded, close, e') {
        assert r[e'] == close || r[e'] == ',';
      }
    }
    var tails := Tails(r, excluded, close);
    LastTrueOf(tails, |r|, e);
    assert Span(r, Space) == |ws| by {
      SpanConcat(ws, body + [' ', close, ','], Space);
    }
    assert r[|ws|..e] == body;
  }

  /** The last true position is the true one after which none is. */
  lemma LastTrueOf(bs: seq<bool>, hi: nat, e: nat)
    requires e < hi <= |bs| && bs[e] && forall e' :: e < e' < hi ==> !bs[e']
    ensures LastTrue(bs, hi) == Some(e)
  {
  }

  /** `l` reads `Values`, a colon, blanks `sp2`, the opening character and then `body`. */
  predicate ValuesLine(l: string, ws: string, sp: string, sp2: string, open: char, body: string) {
    ColonLine(l, ws, "Values", sp, sp2 + ([open] + body)) && AllIn(sp2, Space)
  }

  lemma ValuesLineOf(l: string, ws: string, sp: string, after: string, open: char)
    requires ColonLine(l, ws, "Values", sp, after)
    requires StripLeading(after) != [] && StripLeading(after)[0] == open
    ensures exists ws, sp, sp2, body :: ValuesLine(l, ws, sp, sp2, open, body) && body == StripLeading(after)[1..]
  {
    var n := Span(after, Space);
    var t := after[n..];
    assert after == after[..n] + ([open] + t[1..]) by {
      assert t == [open] + t[1..];
      assert after == after[..n] + t;
    }
    assert ValuesLine(l, ws, sp, after[..n], open, t[1..]);
  }

  /** `^\s*Values\s*:\s*<open>\s*([^<excluded>]+)\s+<close>,` */
  function ValuesText(l: string, open: char, excluded: char, close: char): (r: Option<string>)
    ensures r.Some? ==> exists ws, sp, sp2, body :: ValuesLine(l, ws, sp, sp2, open, body) &&
                                                   r == BracketedText(body, excluded, close)
    ensures r.Some? ==> AfterColon(l, "Values", false).Some? &&
                        var t := StripLeading(AfterColon(l, "Values", false).value); t != [] && t[0] == open
  {
    match AfterColon(l, "Values", false)
    case None => None
    case Some(after) =>
      var t := StripLeading(after);
      if t == [] || t[0] != open then None
      else
        AfterColonSplits(l, "Values", false);
        var ws, sp :| ColonLine(l, ws, "Values", sp, after);
        ValuesLineOf(l, ws, sp, after, open);
        BracketedText(t[1..], excluded, close)
  }

  /** Every line of the Values shape is read by the bracket pattern that follows its opening character. */
  lemma ValuesTextOf(l: string, ws: string, sp: string, sp2: string, open: char, body: string,
                     excluded: char, close: char)
    requires ValuesLine(l, ws, sp, sp2, open, body) && !IsSpace(open)
    ensures ValuesText(l, open, excluded, close) == BracketedText(body, excluded, close)
  {
    var after := sp2 + ([open] + body);
    AfterColonOf(l, ws, "Values", sp, after, false);
    SpanConcat(sp2, [open] + body, Space);
    assert Span([open] + body, Space) == 0;
    assert StripLeading(after) == [open] + body;
    assert ([open] + body)[1..] == body;
  }

  /** `^\s*Values\s*:\s*\[\s*([^\]]+)\s+\],` */
  function BracketValues(l: string): Option<string> {
    ValuesText(l, '[', ']', ']')
  }

  /** `^\s*Values\s*:\s*\{\s*([^\{]+)\s+\},` (the class excludes the opening brace, as written). */
  function BraceValues(l: string): Option<string> {
    ValuesText(l, '{', '{', '}')
  }

  /** `l` reads `Default`, a colon, the token `tok` and then a blank or nothing. */
  predicate DefaultLine(l: string, ws: string, sp: string, sp2: string, tok: string, rest: string) {
    && ColonLine(l, ws, "Default", sp, sp2 + (tok + rest)) && AllIn(sp2, Space)
    && tok != [] && AllIn(tok, NonSpace) && (rest == [] || IsSpace(rest[0]))
  }

  lemma DefaultLineOf(l: string, ws: string, sp: string, after: string, tok: string)
    requires ColonLine(l, ws, "Default", sp, after)
    requires tok == StripLeading(after)[..Span(StripLeading(after), NonSpace)] && tok != []
    ensures exists ws, sp, sp2, rest :: DefaultLine(l, ws, sp, sp2, tok, rest)
  {
    var n := Span(after, Space);
    var t := after[n..];
    var rest := t[|tok|..];
    assert after == after[..n] + (tok + rest) by {
      assert t == tok + rest;
      assert after == after[..n] + t;
    }
    assert rest == [] || IsSpace(rest[0]) by {
      if rest != [] { assert rest[0] == t[|tok|]; }
    }
    assert AllIn(after[..n], Space) && AllIn(tok, NonSpace);
    assert ColonLine(l, ws, "Default", sp, after[..n] + (tok + rest));
    assert DefaultLine(l, ws, sp, after[..n], tok, rest);
  }

  /** `^\s*Default\s*:\s*([^\s]+)`: the default's token. */
  function DefaultToken(l: string): (r: Option<string>)
    ensures r.Some? ==> r.value != [] && AllIn(r.value, NonSpace)
    ensures r.Some? ==> exists ws, sp, sp2, rest :: DefaultLine(l, ws, sp, sp2, r.value, rest)
    ensures r.Some? ==> StartsWith(StripLeading(l), "Default")
  {
    match AfterColon(l, "Default", false)
    case None => None
    case Some(after) =>
      var t := StripLeading(after);
      var tok := t[..Span(t, NonSpace)];
      if tok == [] then None
      else
        AfterColonSplits(l, "Default", false);
        var ws, sp :| ColonLine(l, ws, "Default", sp, after);
        DefaultLineOf(l, ws, sp, after, tok);
        Some(tok)
  }

  /** Every line of the Default shape gives its token. */
  lemma DefaultTokenOf(l: string, ws: string, sp: string, sp2: string, tok: string, rest: string)
    requires DefaultLine(l, ws, sp, sp2, tok, rest)
    ensures DefaultToken(l) == Some(tok)
  {
    var after := sp2 + (tok + rest);
    AfterColonOf(l, ws, "Default", sp, after, false);
    SpanConcat(sp2, tok + rest, Space);
    assert Span(tok + rest, Space) == 0;
    assert StripLeading(after) == tok + rest;
    SpanConcat(tok, rest, NonSpace);
    assert Span(rest, NonSpace) == 0;
    assert (tok + rest)[..|tok|] == tok;
  }

  // ---------- One line of the discovery output

  datatype LineKind =
    | Header(device: string)
    | ControlStart(name: string)
    | TypeField(word: string)
    | FlagsField
    | ValuesField(text: string)
    | DefaultField(token: string)
    | Unmatched

  /** The lines that act on the current control. */
  predicate NeedsControl(k: LineKind) {
    k.TypeField? || k.ValuesField? || k.DefaultField?
  }

  /**
    The patterns tried in the order the parser tries them: the header, a
    colon-free line, Type, Flags, Values with brackets, Values with braces,
    Default; anything else is skipped.
  */
  function Classify(l: string): (k: LineKind)
    ensures k.Header? <==> HeaderDevice(l).Some?
    ensures k.ControlStart? <==> HeaderDevice(l).None? && l != [] && ':' !in l
    ensures !k.Header? && !k.ControlStart? && !k.Unmatched? ==> ':' in l
    ensures k.Header? ==> k.device == HeaderDevice(l).value
    ensures k.ControlStart? ==> k.name == ControlName(l).value
    ensures k.TypeField? <==> HeaderDevice(l).None? && ControlName(l).None? && TypeWord(l).Some?
    ensures k.TypeField? ==> k.word == TypeWord(l).value
    ensures k.FlagsField? <==> HeaderDevice(l).None? && ControlName(l).None? && TypeWord(l).None? && IsFlagsLine(l)
    ensures k.ValuesField? <==> HeaderDevice(l).None? && ControlName(l).None? && TypeWord(l).None? &&
                                !IsFlagsLine(l) && (BracketValues(l).Some? || BraceValues(l).Some?)
    ensures k.ValuesField? ==> k.text == (if BracketValues(l).Some? then BracketValues(l) else BraceValues(l)).value
    ensures k.DefaultField? <==> HeaderDevice(l).None? && ControlName(l).None? && TypeWord(l).None? &&
                                 !IsFlagsLine(l) && BracketValues(l).None? && BraceValues(l).None? &&
                                 DefaultToken(l).Some?
    ensures k.DefaultField? ==> k.token == DefaultToken(l).value
    ensures k.Unmatched? <==> HeaderDevice(l).None? && ControlName(l).None? && TypeWord(l).None? &&
                              !IsFlagsLine(l) && BracketValues(l).None? && BraceValues(l).None? &&
                              DefaultToken(l).None?
  {
    if HeaderDevice(l).Some? then Header(HeaderDevice(l).value)
    else if ControlName(l).Some? then ControlStart(ControlName(l).value)
    else if TypeWord(l).Some? then TypeField(TypeWord(l).value)
    else if IsFlagsLine(l) then FlagsField
    else if BracketValues(l).Some? then ValuesField(BracketValues(l).value)
    else if BraceValues(l).Some? then ValuesField(BraceValues(l).value)
    else if DefaultToken(l).Some? then DefaultField(DefaultToken(l).value)
    else Unmatched
  }

  /**
    The four field patterns never match the same line: each needs its own
    word first on the line, so the order in which they are tried matters
    only against the header and the control-name patterns.
  */
  lemma FieldPatternsDisjoint(l: string)
    ensures TypeWord(l).Some? ==> !IsFlagsLine(l) && BracketValues(l).None? && BraceValues(l).None? &&
                                  DefaultToken(l).None?
    ensures IsFlagsLine(l) ==> BracketValues(l).None? && BraceValues(l).None? && DefaultToken(l).None?
    ensures BracketValues(l).Some? ==> BraceValues(l).None? && DefaultToken(l).None?
    ensures BraceValues(l).Some? ==> DefaultToken(l).None?
  {
    var s := StripLeading(l);
    StartsWithFirst(s, "Type");
    StartsWithFirst(s, "Flags");
    StartsWithFirst(s, "Values");
    StartsWithFirst(s, "Default");
  }

  /** A field line has a colon, so it starts no control, and its first non-blank is its word's first character. */
  lemma ColonLineStart(l: string, ws: string, word: string, sp: string, rest: string)
    requires ColonLine(l, ws, word, sp, rest) && word != [] && !IsSpace(word[0])
    ensures ControlName(l).None?
    ensures StripLeading(l) != [] && StripLeading(l)[0] == word[0]
  {
    StripLeadingOf(l, ws, word + (sp + (":" + rest)));
    assert l[|ws| + |word| + |sp|] == ':';
  }

  /** A line of the Type shape that is no header is classified as a Type line with its word. */
  lemma TypeLineKind(l: string, ws: string, sp: string, sp2: string, w: string, rest: string)
    requires TypeLine(l, ws, sp, sp2, w, rest) && HeaderDevice(l).None?
    ensures Classify(l) == TypeField(w)
  {
    TypeWordOf(l, ws, sp, sp2, w, rest);
    ColonLineStart(l, ws, "Type", sp, sp2 + (w + rest));
  }

  /** A line of the Default shape that is no header is classified as a Default line with its token. */
  lemma DefaultLineKind(l: string, ws: string, sp: string, sp2: string, tok: string, rest: string)
    requires DefaultLine(l, ws, sp, sp2, tok, rest) && HeaderDevice(l).None?
    ensures Classify(l) == DefaultField(tok)
  {
    DefaultTokenOf(l, ws, sp, sp2, tok, rest);
    ColonLineStart(l, ws, "Default", sp, sp2 + (tok + rest));
    var s := StripLeading(l);
    StartsWithFirst(s, "Type");
    StartsWithFirst(s, "Flags");
    StartsWithFirst(s, "Values");
  }

  // ---------- A Dword range: (\d+)\s*\.\.\s*(\d+)\s*,\s*step size:\s*(\d+)

  datatype Range = Range(min: nat, max: nat, step: nat)

  /** `\s*(\d+)`: the number a run of digits spells, after optional blanks, and the text after it. */
  function Number(s: string): Option<(nat, string)> {
    var t := StripLeading(s);
    var n := Span(t, Digit);
    if n == 0 then None else Some((DigitsValue(t[..n]), t[n..]))
  }

  /** `\s*<p>` for a literal `p`: the text after it. */
  function Literal(s: string, p: string): Option<string> {
    var t := StripLeading(s);
    if StartsWith(t, p) then Some(t[|p|..]) else None
  }

  /** One piece of a sequential pattern: a `\s*`-free `(\d+)` capture, or `\s*` followed by literal text. */
  datatype Piece = Num | Lit(text: string)

  /** `(\d+)\s*\.\.\s*(\d+)\s*,\s*step size:\s*(\d+)`, piece by piece (`Number` skips the `\s*` before a capture). */
  const RangePieces: seq<Piece> := [Num, Lit(".."), Num, Lit(","), Lit("step size:"), Num]

  /** Matches the pieces one after the other from the start of `s`: the captured numbers, in order. */
  function MatchPieces(s: string, ps: seq<Piece>): (r: Option<seq<nat>>)
    decreases |ps|
  {
    if ps == [] then Some([])
    else
      match ps[0]
      case Num =>
        (match Number(s)
         case None => None
         case Some((n, rest)) =>
           match MatchPieces(rest, ps[1..])
           case None => None
           case Some(ns) => Some([n] + ns))
      case Lit(p) =>
        (match Literal(s, p)
         case None => None
         case Some(rest) => MatchPieces(rest, ps[1..]))
  }

  /** The range pattern anchored at the start of `s` (its first `\d+` must start right there). */
  function RangeHere(s: string): Option<Range> {
    if s == [] || !IsDigit(s[0]) then None
    else
      match MatchPieces(s, RangePieces)
      case Some(ns) => if |ns| == 3 then Some(Range(ns[0], ns[1], ns[2])) else None
      case None => None
  }

  /** The range pattern matches from position `j` of `s`. */
  predicate RangeAt(s: string, j: nat)
    requires j <= |s|
  {
    RangeHere(s[j..]).Some?
  }

  /** The first true position at or after `i`. */
  function FirstTrue(bs: seq<bool>, i: nat): (r: Option<nat>)
    requires i <= |bs|
    ensures r.Some? ==> i <= r.value < |bs| && bs[r.value]
    ensures r.Some? ==> forall j :: i <= j < r.value ==> !bs[j]
    ensures r.None? ==> forall j :: i <= j < |bs| ==> !bs[j]
    decreases |bs| - i
  {
    if i == |bs| then None
    else if bs[i] then Some(i)
    else FirstTrue(bs, i + 1)
  }

  /** For each position of `s` (its end included), whether the range pattern matches from there. */
  function RangeStarts(s: string): (bs: seq<bool>)
    ensures |bs| == |s| + 1
    decreases |s|
  {
    [RangeHere(s).Some?] + (if s == [] then [] else RangeStarts(s[1..]))
  }

  /** Position `j` of `RangeStarts(s)` says whether the pattern matches from position `j` of `s`. */
  lemma {:induction false} RangeStartsAt(s: string, j: nat)
    requires j <= |s|
    ensures RangeStarts(s)[j] == RangeAt(s, j)
    decreases |s|
  {
    if j == 0 {
      assert s[0..] == s;
    } else {
      RangeStartsAt(s[1..], j - 1);
      assert s[1..][j - 1..] == s[j..];
    }
  }

  /** `values =~ /(\d+)\s*\.\.\s*(\d+)\s*,\s*step size:\s*(\d+)/`: the leftmost match, then its three captures. */
  function RangeMatch(s: string): Option<Range> {
    match FirstTrue(RangeStarts(s), 0)
    case None => None
    case Some(i) => RangeHere(s[i..])
  }

  /** The range text a Dword control reports. */
  function RangeText(r: Range): string {
    NatToString(r.min) + " .. " + NatToString(r.max) + ", step size: " + NatToString(r.step)
  }

  lemma NumberOf(d: string, rest: string)
    requires d != [] && AllIn(d, Digit)
    requires rest == [] || !IsDigit(rest[0])
    ensures Number(d + rest) == Some((DigitsValue(d), rest))
  {
    var t := d + rest;
    assert !IsSpace(t[0]);
    assert StripLeading(t) == t;
    SpanConcat(d, rest, Digit);
    assert t[..|d|] == d;
    assert t[|d|..] == rest;
  }

  lemma NumberAfterBlank(x: string)
    ensures Number(" " + x) == Number(x)
  {
    StripBlank(x);
  }

  lemma LiteralOf(p: string, rest: string)
    requires p != [] && !IsSpace(p[0])
    ensures Literal(" " + (p + rest), p) == Some(rest)
  {
    StripBlank(p + rest);
    assert StripLeading(p + rest) == p + rest;
    assert (p + rest)[..|p|] == p;
    assert (p + rest)[|p|..] == rest;
  }

  lemma BlankNumberOf(d: string, t: string, rest: string)
    requires d != [] && AllIn(d, Digit)
    requires t == " " + (d + rest)
    requires rest == [] || !IsDigit(rest[0])
    ensures Number(t) == Some((DigitsValue(d), rest))
  {
    NumberOf(d, rest);
    NumberAfterBlank(d + rest);
  }

  lemma BlankNumberAtEnd(d: string, t: string)
    requires d != [] && AllIn(d, Digit)
    requires t == " " + d
    ensures Number(t) == Some((DigitsValue(d), []))
  {
    assert d + [] == d;
    BlankNumberOf(d, t, []);
  }

  lemma CommaOf(t3: string, t4: string)
    requires t3 == "," + t4
    ensures Literal(t3, ",") == Some(t4)
  {
    assert t3[..1] == ",";
    assert t3[1..] == t4;
  }

  /** One capture, then the rest of the pieces. */
  lemma MatchNum(s: string, ps: seq<Piece>, n: nat, rest: string, ns: seq<nat>)
    requires ps != [] && ps[0] == Num
    requires Number(s) == Some((n, rest))
    requires MatchPieces(rest, ps[1..]) == Some(ns)
    ensures MatchPieces(s, ps) == Some([n] + ns)
  {
  }

  /** One literal, then the rest of the pieces. */
  lemma MatchLit(s: string, ps: seq<Piece>, rest: string, ns: seq<nat>)
    requires ps != [] && ps[0].Lit?
    requires Literal(s, ps[0].text) == Some(rest)
    requires MatchPieces(rest, ps[1..]) == Some(ns)
    ensures MatchPieces(s, ps) == Some(ns)
  {
  }

  /** A digit run, then the rest of the pieces. */
  lemma MatchNumText(d: string, rest: string, ps: seq<Piece>, ns: seq<nat>)
    requires d != [] && AllIn(d, Digit)
    requires rest == [] || !IsDigit(rest[0])
    requires ps != [] && ps[0] == Num
    requires MatchPieces(rest, ps[1..]) == Some(ns)
    ensures MatchPieces(d + rest, ps) == Some([DigitsValue(d)] + ns)
  {
    NumberOf(d, rest);
    MatchNum(d + rest, ps, DigitsValue(d), rest, ns);
  }

  /** A blank and a digit run, then the rest of the pieces. */
  lemma MatchBlankNumText(d: string, rest: string, ps: seq<Piece>, ns: seq<nat>)
    requires d != [] && AllIn(d, Digit)
    requires rest == [] || !IsDigit(rest[0])
    requires ps != [] && ps[0] == Num
    requires MatchPieces(rest, ps[1..]) == Some(ns)
    ensures MatchPieces(" " + (d + rest), ps) == Some([DigitsValue(d)] + ns)
  {
    BlankNumberOf(d, " " + (d + rest), rest);
    MatchNum(" " + (d + rest), ps, DigitsValue(d), rest, ns);
  }

  /** A blank and a literal, then the rest of the pieces. */
  lemma MatchLitText(p: string, rest: string, ps: seq<Piece>, ns: seq<nat>)
    requires p != [] && !IsSpace(p[0])
    requires ps != [] && ps[0] == Lit(p)
    requires MatchPieces(rest, ps[1..]) == Some(ns)
    ensures MatchPieces(" " + (p + rest), ps) == Some(ns)
  {
    LiteralOf(p, rest);
    MatchLit(" " + (p + rest), ps, rest, ns);
  }

  /** A comma right away, then the rest of the pieces. */
  lemma MatchCommaText(rest: string, ps: seq<Piece>, ns: seq<nat>)
    requires ps != [] && ps[0] == Lit(",")
    requires MatchPieces(rest, ps[1..]) == Some(ns)
    ensures MatchPieces("," + rest, ps) == Some(ns)
  {
    CommaOf("," + rest, rest);
    MatchLit("," + rest, ps, rest, ns);
  }

  /** The last capture: `step size:` and its number. */
  lemma StepPart(c: string)
    requires c != [] && AllIn(c, Digit)
    ensures MatchPieces(" " + ("step size:" + (" " + c)), RangePieces[4..]) == Some([DigitsValue(c)])
  {
    var ps := RangePieces[4..];
    assert ps == [Lit("step size:"), Num] && ps[1..] == [Num] && ps[1..][1..] == [];
    assert c + [] == c;
    assert [DigitsValue(c)] + [] == [DigitsValue(c)];
    MatchBlankNumText(c, [], ps[1..], []);
    MatchLitText("step size:", " " + c, ps, [DigitsValue(c)]);
  }

  /** The middle capture, then the comma and the rest. */
  lemma MaxPart(b: string, c: string)
    requires b != [] && AllIn(b, Digit)
    requires c != [] && AllIn(c, Digit)
    ensures MatchPieces(" " + (b + ("," + (" " + ("step size:" + (" " + c))))), RangePieces[2..])
         == Some([DigitsValue(b), DigitsValue(c)])
  {
    var t4 := " " + ("step size:" + (" " + c));
    var ps := RangePieces[2..];
    assert ps == [Num, Lit(","), Lit("step size:"), Num];
    assert ps[1..][1..] == RangePieces[4..];
    StepPart(c);
    MatchCommaText(t4, ps[1..], [DigitsValue(c)]);
    assert [DigitsValue(b)] + [DigitsValue(c)] == [DigitsValue(b), DigitsValue(c)];
    MatchBlankNumText(b, "," + t4, ps, [DigitsValue(c)]);
  }

  /** The first capture, then the `..` and the rest. */
  lemma MinPart(a: string, b: string, c: string)
    requires a != [] && AllIn(a, Digit)
    requires b != [] && AllIn(b, Digit)
    requires c != [] && AllIn(c, Digit)
    ensures MatchPieces(a + (" " + (".." + (" " + (b + ("," + (" " + ("step size:" + (" " + c)))))))), RangePieces)
         == Some([DigitsValue(a), DigitsValue(b), DigitsValue(c)])
  {
    var t2 := " " + (b + ("," + (" " + ("step size:" + (" " + c)))));
    var ps := RangePieces;
    assert ps[1..] == [Lit(".."), Num, Lit(","), Lit("step size:"), Num];
    assert ps[1..][1..] == RangePieces[2..];
    MaxPart(b, c);
    MatchLitText("..", t2, ps[1..], [DigitsValue(b), DigitsValue(c)]);
    assert [DigitsValue(a)] + [DigitsValue(b), DigitsValue(c)] == [DigitsValue(a), DigitsValue(b), DigitsValue(c)];
    MatchNumText(a, " " + (".." + t2), ps, [DigitsValue(b), DigitsValue(c)]);
  }

  /** The range text, regrouped piece by piece. */
  lemma RangeTextShape(a: string, b: string, c: string)
    ensures a + " .. " + b + ", step size: " + c
         == a + (" " + (".." + (" " + (b + ("," + (" " + ("step size:" + (" " + c))))))))
  {
  }

  /** A text that starts with a digit and matches all the pieces is a range. */
  lemma RangeHereOfPieces(s: string, r: Range)
    requires s != [] && IsDigit(s[0])
    requires MatchPieces(s, RangePieces) == Some([r.min, r.max, r.step])
    ensures RangeHere(s) == Some(r)
  {
  }

  lemma RangeHereOfDigits(a: string, b: string, c: string)
    requires a != [] && AllIn(a, Digit)
    requires b != [] && AllIn(b, Digit)
    requires c != [] && AllIn(c, Digit)
    ensures RangeHere(a + " .. " + b + ", step size: " + c) == Some(Range(DigitsValue(a), DigitsValue(b), DigitsValue(c)))
  {
    RangeTextShape(a, b, c);
    MinPart(a, b, c);
    var s := a + " .. " + b + ", step size: " + c;
    assert s[0] == a[0];
    RangeHereOfPieces(s, Range(DigitsValue(a), DigitsValue(b), DigitsValue(c)));
  }

  lemma RangeHereOfText(r: Range)
    ensures RangeHere(RangeText(r)) == Some(r)
  {
    RangeHereOfDigits(NatToString(r.min), NatToString(r.max), NatToString(r.step));
  }

  /** A well-formed range text gives back its three numbers. */
  lemma RangeOfRangeText(r: Range)
    ensures RangeMatch(RangeText(r)) == Some(r)
  {
    var s := RangeText(r);
    RangeHereOfText(r);
    assert s[0..] == s;
    assert RangeStarts(s)[0];
  }

  /** Searching behind a leading false finds the same position, one later. */
  lemma {:induction false} FirstTrueShift(b: bool, bs: seq<bool>, i: nat)
    requires i <= |bs|
    ensures FirstTrue([b] + bs, i + 1) == if FirstTrue(bs, i).None? then None else Some(FirstTrue(bs, i).value + 1)
    decreases |bs| - i
  {
    var cs := [b] + bs;
    if i < |bs| {
      assert cs[i + 1] == bs[i];
      if !bs[i] {
        FirstTrueShift(b, bs, i + 1);
      }
    }
  }

  /** The range pattern captures digit runs only: a leading minus sign is passed over, not read. */
  lemma MinusSignIgnored(s: string)
    ensures RangeMatch("-" + s) == RangeMatch(s)
  {
    var m := "-" + s;
    assert m[1..] == s;
    var bs := RangeStarts(s);
    assert RangeStarts(m) == [false] + bs;
    FirstTrueShift(false, bs, 0);
    assert FirstTrue(RangeStarts(m), 0) == FirstTrue([false] + bs, 1);
    match FirstTrue(bs, 0)
    case None =>
    case Some(i) => assert m[i + 1..] == s[i..];
  }

  /** A range whose minimum is printed with a minus sign reads back with the minimum's magnitude. */
  lemma SignedRangeText(r: Range)
    ensures RangeMatch("-" + RangeText(r)) == Some(r)
  {
    RangeOfRangeText(r);
    MinusSignIgnored(RangeText(r));
  }

  /** The pan range of a typical camera: its minimum is read as 500, not -500. */
  lemma NegativeMinimumRead()
    ensures RangeMatch("-500 .. 500, step size: 1") == Some(Range(500, 500, 1))
  {
    PanRangeText();
    SignedRangeText(Range(500, 500, 1));
  }

  /** How the utility prints that range, with the minus sign in front. */
  lemma PanRangeText()
    ensures "-" + RangeText(Range(500, 500, 1)) == "-500 .. 500, step size: 1"
  {
    FiveHundredText();
    assert RangeText(Range(500, 500, 1)) == "500" + " .. " + "500" + ", step size: " + "1";
  }

  lemma FiveHundredText()
    ensures NatToString(500) == "500"
  {
    assert NatToString(5) == "5";
    assert NatToString(50) == NatToString(5) + "0";
  }

  // ---------- Choice tokens: \s*'([^']+)'\[([^\]]+)\]

  datatype Token = Token(caption: string, value: string)

  predicate WellFormedToken(t: Token) {
    t.caption != [] && '\'' !in t.caption && t.value != [] && ']' !in t.value
  }

  /** The choice pattern anchored at a quote at the start of `s`: the token and how many characters it spans. */
  function TokenHere(s: string): (r: Option<(Token, nat)>)
    ensures r.Some? ==> 0 < r.value.1 <= |s| && WellFormedToken(r.value.0)
  {
    if s == [] || s[0] != '\'' then None
    else
      match CharIndex(s[1..], '\'')
      case None => None
      case Some(q) =>
        var caption := s[1..][..q];
        var after := s[q + 2..];
        if q == 0 || after == [] || after[0] != '[' then None
        else
          match CharIndex(after[1..], ']')
          case None => None
          case Some(b) =>
            if b == 0 then None
            else Some((Token(caption, after[1..][..b]), q + b + 4))
  }

  /** `values.scan(...)`: every token, left to right, each search resuming after the previous match. */
  function Tokens(s: string): seq<Token>
    decreases |s|
  {
    if s == [] then []
    else
      match TokenHere(s)
      case Some((t, n)) => [t] + Tokens(s[n..])
      case None => Tokens(s[1..])
  }

  /** Every scanned token has a non-empty, quote-free caption and a non-empty, bracket-free value. */
  lemma {:induction false} TokensWellFormed(s: string)
    ensures forall i :: 0 <= i < |Tokens(s)| ==> WellFormedToken(Tokens(s)[i])
    decreases |s|
  {
    if s != [] {
      match TokenHere(s)
      case Some((t, n)) => TokensWellFormed(s[n..]);
      case None => TokensWellFormed(s[1..]);
    }
  }

  /** How the utility lists choices: `'label'[value]`, separated by a comma and a blank. */
  function TokenText(t: Token): string {
    "'" + t.caption + "'[" + t.value + "]"
  }

  function ChoicesText(ts: seq<Token>): string {
    if |ts| == 0 then ""
    else if |ts| == 1 then TokenText(ts[0])
    else TokenText(ts[0]) + ", " + ChoicesText(ts[1..])
  }

  /** The first `c` in a text is the one right after a `c`-free prefix. */
  lemma CharIndexAfter(a: string, c: char, rest: string)
    requires c !in a
    ensures CharIndex(a + ([c] + rest), c) == Some(|a|)
  {
    var s := a + ([c] + rest);
    assert s[|a|] == c;
    assert s[..|a|] == a;
    assert forall m :: |a| < m <= |s| ==> s[..m][|a|] == c;
  }

  /** A token's text followed by more text, regrouped character by character. */
  lemma TokenTextShape(t: Token, rest: string)
    ensures TokenText(t) + rest == ['\''] + (t.caption + (['\''] + (['['] + (t.value + ([']'] + rest)))))
  {
  }

  /** The quoted caption at the start of a token's text. */
  lemma CaptionStep(caption: string, after: string)
    requires '\'' !in caption
    ensures var s := ['\''] + (caption + (['\''] + after));
            && s[1..] == caption + (['\''] + after)
            && CharIndex(s[1..], '\'') == Some(|caption|)
            && s[1..][..|caption|] == caption
            && s[|caption| + 2..] == after
  {
    var s := ['\''] + (caption + (['\''] + after));
    assert s[1..] == caption + (['\''] + after);
    CharIndexAfter(caption, '\'', after);
    assert s[1..][..|caption|] == caption;
  }

  /** The bracketed value after the caption. */
  lemma ValueStep(value: string, rest: string)
    requires ']' !in value
    ensures var after := ['['] + (value + ([']'] + rest));
            && after[1..] == value + ([']'] + rest)
            && CharIndex(after[1..], ']') == Some(|value|)
            && after[1..][..|value|] == value
  {
    var after := ['['] + (value + ([']'] + rest));
    assert after[1..] == value + ([']'] + rest);
    CharIndexAfter(value, ']', rest);
    assert after[1..][..|value|] == value;
  }

  /** The choice pattern reads back a caption and a value from their quoted, bracketed text. */
  lemma TokenHereOfParts(caption: string, value: string, rest: string)
    requires WellFormedToken(Token(caption, value))
    ensures TokenHere(['\''] + (caption + (['\''] + (['['] + (value + ([']'] + rest))))))
         == Some((Token(caption, value), |caption| + |value| + 4))
  {
    var after := ['['] + (value + ([']'] + rest));
    CaptionStep(caption, after);
    ValueStep(value, rest);
  }

  lemma TokenHereOfText(t: Token, rest: string)
    requires WellFormedToken(t)
    ensures TokenHere(TokenText(t) + rest) == Some((t, |TokenText(t)|))
  {
    TokenTextShape(t, rest);
    TokenHereOfParts(t.caption, t.value, rest);
  }

  lemma TokensAfterToken(t: Token, rest: string)
    requires WellFormedToken(t)
    ensures Tokens(TokenText(t) + rest) == [t] + Tokens(rest)
  {
    TokenHereOfText(t, rest);
    assert (TokenText(t) + rest)[|TokenText(t)|..] == rest;
  }

  lemma TokensAfterSeparator(rest: string)
    ensures Tokens(", " + rest) == Tokens(rest)
  {
    assert (", " + rest)[1..] == " " + rest;
    assert (" " + rest)[1..] == rest;
  }

  /** Scanning the utility's listing of choices gives back exactly the listed tokens, in order. */
  lemma {:induction false} TokensOfChoicesText(ts: seq<Token>)
    requires forall i :: 0 <= i < |ts| ==> WellFormedToken(ts[i])
    ensures Tokens(ChoicesText(ts)) == ts
  {
    if |ts| == 1 {
      TokensAfterToken(ts[0], []);
      assert TokenText(ts[0]) + [] == TokenText(ts[0]);
    } else if |ts| > 1 {
      var rest := ChoicesText(ts[1..]);
      assert ChoicesText(ts) == TokenText(ts[0]) + (", " + rest);
      TokensAfterToken(ts[0], ", " + rest);
      TokensAfterSeparator(rest);
      TokensOfChoicesText(ts[1..]);
      assert ts == [ts[0]] + ts[1..];
    }
  }

  // ---------- Values lines as the utility prints them

  /** A range's text starts with a digit and holds no closing bracket. */
  lemma RangeTextChars(r: Range)
    ensures RangeText(r) != [] && IsDigit(RangeText(r)[0]) && ']' !in RangeText(r)
  {
    var a, b, c := NatToString(r.min), NatToString(r.max), NatToString(r.step);
    assert ']' !in a && ']' !in b && ']' !in c;
    assert RangeText(r)[0] == a[0] && InClass(a[0], Digit);
  }

  /**
    A Values line whose capture is followed by one blank, the closing
    character and a comma gives exactly that capture.
  */
  lemma ValuesTextOfBody(l: string, ws: string, sp: string, sp2: string, lead: string, body: string,
                         open: char, excluded: char, close: char)
    requires ValuesLine(l, ws, sp, sp2, open, lead + (body + [' ', close, ','])) && AllIn(lead, Space)
    requires body != [] && !IsSpace(body[0]) && excluded !in body
    requires !IsSpace(open) && !IsSpace(excluded) && !IsSpace(close)
    ensures ValuesText(l, open, excluded, close) == Some(body)
  {
    var r := lead + (body + [' ', close, ',']);
    ValuesTextOf(l, ws, sp, sp2, open, r, excluded, close);
    BracketedTextOf(r, lead, body, excluded, close);
  }

  /**
    A Values line listing a range in brackets, as the utility prints it,
    gives the range's text, and the range pattern reads the range back.
  */
  lemma RangeValuesLine(l: string, ws: string, sp: string, sp2: string, lead: string, r: Range)
    requires ValuesLine(l, ws, sp, sp2, '[', lead + (RangeText(r) + " ],")) && AllIn(lead, Space)
    ensures BracketValues(l) == Some(RangeText(r))
    ensures RangeMatch(BracketValues(l).value) == Some(r)
  {
    RangeTextChars(r);
    assert " ]," == [' ', ']', ','];
    ValuesTextOfBody(l, ws, sp, sp2, lead, RangeText(r), '[', ']', ']');
    RangeOfRangeText(r);
  }

  /** The listing of choices starts with a quote and holds no opening brace when no caption or value does. */
  lemma {:induction false} ChoicesTextChars(ts: seq<Token>)
    requires ts != []
    requires forall i :: 0 <= i < |ts| ==> '{' !in ts[i].caption && '{' !in ts[i].value
    ensures ChoicesText(ts) != [] && ChoicesText(ts)[0] == '\'' && '{' !in ChoicesText(ts)
    decreases |ts|
  {
    var t := ts[0];
    assert '{' !in TokenText(t) by {
      assert TokenText(t) == "'" + t.caption + "'[" + t.value + "]";
    }
    if |ts| > 1 {
      ChoicesTextChars(ts[1..]);
      assert ChoicesText(ts) == TokenText(t) + ", " + ChoicesText(ts[1..]);
    }
  }

  lemma BraceValuesOfListing(l: string, ws: string, sp: string, sp2: string, lead: string, body: string)
    requires ValuesLine(l, ws, sp, sp2, '{', lead + (body + " },")) && AllIn(lead, Space)
    requires body != [] && body[0] == '\'' && '{' !in body
    ensures BraceValues(l) == Some(body)
  {
    assert " }," == [' ', '}', ','];
    ValuesTextOfBody(l, ws, sp, sp2, lead, body, '{', '{', '}');
  }

  /** A Values line listing choices in braces, as the utility prints it, gives the listing. */
  lemma BraceValuesOfChoices(l: string, ws: string, sp: string, sp2: string, lead: string, ts: seq<Token>)
    requires ValuesLine(l, ws, sp, sp2, '{', lead + (ChoicesText(ts) + " },")) && AllIn(lead, Space)
    requires ts != []
    requires forall i :: 0 <= i < |ts| ==> '{' !in ts[i].caption && '{' !in ts[i].value
    ensures BraceValues(l) == Some(ChoicesText(ts))
  {
    ChoicesTextChars(ts);
    BraceValuesOfListing(l, ws, sp, sp2, lead, ChoicesText(ts));
  }

  /** Reading such a line and scanning its listing gives back the choices in order. */
  lemma ChoiceValuesLine(l: string, ws: string, sp: string, sp2: string, lead: string, ts: seq<Token>)
    requires ValuesLine(l, ws, sp, sp2, '{', lead + (ChoicesText(ts) + " },")) && AllIn(lead, Space)
    requires ts != []
    requires forall i :: 0 <= i < |ts| ==> WellFormedToken(ts[i]) && '{' !in ts[i].caption && '{' !in ts[i].value
    ensures BraceValues(l).Some? && Tokens(BraceValues(l).value) == ts
  {
    BraceValuesOfChoices(l, ws, sp, sp2, lead, ts);
    TokensOfChoicesText(ts);
  }

  /** A Values line listing a range in brackets that is no header is classified as a Values line with the range's text. */
  lemma RangeLineKind(l: string, ws: string, sp: string, sp2: string, lead: string, r: Range)
    requires ValuesLine(l, ws, sp, sp2, '[', lead + (RangeText(r) + " ],")) && AllIn(lead, Space)
    requires HeaderDevice(l).None?
    ensures Classify(l) == ValuesField(RangeText(r))
  {
    RangeValuesLine(l, ws, sp, sp2, lead, r);
    ColonLineStart(l, ws, "Values", sp, sp2 + ("[" + (lead + (RangeText(r) + " ],"))));
    FieldPatternsDisjoint(l);
    var s := StripLeading(l);
    StartsWithFirst(s, "Type");
    StartsWithFirst(s, "Flags");
  }

  /**
    A Values line listing choices in braces that is no header is classified
    as a Values line with the listing's text, which `Tokens` reads back as
    the choices (`TokensOfChoicesText`).
  */
  lemma ChoiceLineKind(l: string, ws: string, sp: string, sp2: string, lead: string, ts: seq<Token>)
    requires ValuesLine(l, ws, sp, sp2, '{', lead + (ChoicesText(ts) + " },")) && AllIn(lead, Space)
    requires ts != []
    requires forall i :: 0 <= i < |ts| ==> '{' !in ts[i].caption && '{' !in ts[i].value
    requires HeaderDevice(l).None?
    ensures Classify(l) == ValuesField(ChoicesText(ts))
  {
    BraceValuesOfChoices(l, ws, sp, sp2, lead, ts);
    BraceLineKind(l, ws, sp, sp2, lead + (ChoicesText(ts) + " },"));
  }

  /** A Values line opening with a brace that is no header is classified by the brace pattern alone. */
  lemma BraceLineKind(l: string, ws: string, sp: string, sp2: string, body: string)
    requires ValuesLine(l, ws, sp, sp2, '{', body) && HeaderDevice(l).None? && BraceValues(l).Some?
    ensures Classify(l) == ValuesField(BraceValues(l).value)
  {
    ValuesLineOpen(l, ws, sp, sp2, '{', body);
    ColonLineStart(l, ws, "Values", sp, sp2 + (['{'] + body));
    var s := StripLeading(l);
    StartsWithFirst(s, "Type");
    StartsWithFirst(s, "Flags");
  }

  /** A Values line opening with a brace is not read by the bracket pattern, and conversely. */
  lemma ValuesLineOpen(l: string, ws: string, sp: string, sp2: string, open: char, body: string)
    requires ValuesLine(l, ws, sp, sp2, open, body) && !IsSpace(open)
    ensures open != '[' ==> BracketValues(l).None?
    ensures open != '{' ==> BraceValues(l).None?
  {
    var after := sp2 + ([open] + body);
    AfterColonOf(l, ws, "Values", sp, after, false);
    StripLeadingOf(after, sp2, [open] + body);
  }
}
