/**
 * The SVG helper's path-data converter. The `d` attribute of a path is
 * split into tokens at runs of whitespace; the first token is the current
 * command. `M` takes one point as the last point and reads the next command;
 * `C` takes either `Z`, which closes the outline with a `-1,-1` line and reads
 * the next command if there is one, or a triple of points, whose end point is
 * written with every `.00` removed and becomes the last point, warning when
 * the segment is a curve. The command stays `C` after a triple, so triples
 * repeat implicitly as path data allows (section 8.3 of SVG 1.1). Any other
 * command aborts the conversion. Reading past the last token gives PHP's
 * null, which compares and prints as the empty string.
 */
module SvgPath {
  import opened Wrappers

  /** The characters `\s` matches: space, tab, line feed, vertical tab, form feed, carriage return. */
  predicate IsSpace(c: char) {
    c == ' ' || c == '\t' || c == '\n' || c == '\U{000B}' || c == '\U{000C}' || c == '\r'
  }

  predicate NoSpace(s: string) {
    forall k :: 0 <= k < |s| ==> !IsSpace(s[k])
  }

  /** The first whitespace at or after `k`, or the end of `s`. */
  function SpaceFrom(s: string, k: nat): (j: nat)
    requires k <= |s|
    ensures k <= j <= |s| && NoSpace(s[k..j]) && (j < |s| ==> IsSpace(s[j]))
    decreases |s| - k
  {
    if k == |s| || IsSpace(s[k]) then k
    else
      var j := SpaceFrom(s, k + 1);
      assert s[k..j] == [s[k]] + s[k + 1..j];
      j
  }

  /** The first non-whitespace at or after `k`, or the end of `s`. */
  function WordFrom(s: string, k: nat): (j: nat)
    requires k <= |s|
    ensures k <= j <= |s| && (forall m :: k <= m < j ==> IsSpace(s[m])) && (j < |s| ==> !IsSpace(s[j]))
    decreases |s| - k
  {
    if k == |s| || !IsSpace(s[k]) then k else WordFrom(s, k + 1)
  }

  /**
   * The tokens between runs of whitespace: there is always at least one,
   * none holds whitespace, and a leading or trailing run gives an empty
   * first or last token.
   */
  function Split(s: string): (r: seq<string>)
    ensures |r| >= 1
    ensures forall k :: 0 <= k < |r| ==> NoSpace(r[k])
    decreases |s|
  {
    var i := SpaceFrom(s, 0);
    if i == |s| then
      assert s[0..i] == s;
      [s]
    else
      var j := WordFrom(s, i);
      [s[..i]] + Split(s[j..])
  }

  /** Tokens joined with single spaces. */
  function Join(ts: seq<string>): string
    requires |ts| >= 1
  {
    if |ts| == 1 then ts[0] else ts[0] + " " + Join(ts[1..])
  }

  /** Splitting tokens joined with single spaces gives them back, when only the first and last may be empty. */
  lemma {:induction false} SplitJoin(ts: seq<string>)
    requires |ts| >= 1
    requires forall k :: 0 <= k < |ts| ==> NoSpace(ts[k])
    requires forall k :: 0 < k < |ts| - 1 ==> ts[k] != []
    ensures Split(Join(ts)) == ts
    decreases |ts|
  {
    var s := Join(ts);
    if |ts| == 1 {
      assert SpaceFrom(s, 0) == |s| by {
        NoSpaceFrom(s, 0);
      }
    } else {
      var rest := Join(ts[1..]);
      assert s == ts[0] + " " + rest;
      var i := |ts[0]|;
      assert s[..i] == ts[0];
      assert SpaceFrom(s, 0) == i by {
        SpaceAt(s, i);
      }
      if |ts| > 2 {
        assert ts[1] != [] && rest == ts[1] + " " + Join(ts[2..]);
        assert rest[0] == ts[1][0];
      }
      assert |ts| == 2 && ts[1] == [] ==> rest == [];
      assert WordFrom(s, i) == i + 1 by {
        assert s[i] == ' ';
        assert i + 1 < |s| ==> s[i + 1] == rest[0];
        if |ts| == 2 && i + 1 < |s| {
          assert rest == ts[1] && ts[1] != [];
        }
      }
      assert s[i + 1..] == rest;
      SplitJoin(ts[1..]);
    }
  }

  /** A string with no whitespace from `k` on has no first whitespace. */
  lemma NoSpaceFrom(s: string, k: nat)
    requires k <= |s| && NoSpace(s)
    ensures SpaceFrom(s, k) == |s|
    decreases |s| - k
  {
    if k < |s| {
      NoSpaceFrom(s, k + 1);
    }
  }

  /** When `s[i]` is the first whitespace, the search from the start stops there. */
  lemma SpaceAt(s: string, i: nat)
    requires i < |s| && IsSpace(s[i]) && NoSpace(s[..i])
    ensures SpaceFrom(s, 0) == i
  {
    var k := i;
    while k > 0
      invariant 0 <= k <= i && SpaceFrom(s, k) == i
    {
      assert s[..i][k - 1] == s[k - 1];
      k := k - 1;
    }
  }

  /**
   * Every `.00` removed, scanning left to right without overlap: what PHP's
   * `str_replace('.00', '', s)` gives.
   */
  function Strip00(s: string): (r: string)
    ensures |r| <= |s|
  {
    if |s| >= 3 && s[0] == '.' && s[1] == '0' && s[2] == '0' then Strip00(s[3..])
    else if s == [] then []
    else [s[0]] + Strip00(s[1..])
  }

  /** No '.' in `s`. */
  predicate NoDot(s: string) {
    forall k :: 0 <= k < |s| ==> s[k] != '.'
  }

  /** Text without a '.' passes through unchanged, and the removal goes on after it. */
  lemma {:induction false} StripPlain(x: string, y: string)
    requires NoDot(x)
    ensures Strip00(x + y) == x + Strip00(y)
    decreases |x|
  {
    if x != [] {
      var s := x + y;
      assert s[0] == x[0] != '.';
      assert s[1..] == x[1..] + y;
      StripPlain(x[1..], y);
      assert Strip00(s) == [x[0]] + (x[1..] + Strip00(y));
      assert [x[0]] + x[1..] == x;
    } else {
      assert x + y == y;
    }
  }

  /**
   * A coordinate pair as the exporter writes it, two whole numbers each
   * followed by `.00`, loses both fractions and keeps the comma.
   */
  lemma StripPair(a: string, b: string)
    requires NoDot(a) && NoDot(b)
    ensures Strip00(a + ".00," + b + ".00") == a + "," + b
  {
    var tail := "," + b + ".00";
    assert a + ".00," + b + ".00" == a + (".00" + tail);
    StripPlain(a, ".00" + tail);
    StripFraction(tail);
    assert tail == ("," + b) + ".00";
    StripPlain("," + b, ".00");
    StripFraction([]);
    assert ".00" + [] == ".00";
  }

  /** A `.00` at the front is removed and the removal goes on after it. */
  lemma StripFraction(y: string)
    ensures Strip00(".00" + y) == Strip00(y)
  {
    assert (".00" + y)[3..] == y;
  }

  /** Text with no '.' is unchanged. */
  lemma StripNoDot(s: string)
    requires NoDot(s)
    ensures Strip00(s) == s
  {
    StripPlain(s, []);
    assert s + [] == s;
  }

  /**
   * What a conversion gives: the lines of the output file and the warnings
   * printed, or, when an unknown command aborts it, the command and the
   * warnings printed before; nothing is written then.
   */
  datatype Outcome = Written(lines: seq<string>, warnings: seq<string>) | Died(cmd: Option<string>, printed: seq<string>)

  /** Token `i`, or PHP's null past the end. */
  function Tok(raw: seq<string>, i: nat): Option<string> {
    if i < |raw| then Some(raw[i]) else None
  }

  /** A token as PHP compares and prints it: null is the empty string. */
  function Text(t: Option<string>): string {
    if t.Some? then t.value else ""
  }

  /** `lines` and `warnings` come first. */
  function Prepend(lines: seq<string>, warnings: seq<string>, o: Outcome): Outcome {
    match o
    case Written(l, w) => Written(lines + l, warnings + w)
    case Died(c, w) => Died(c, warnings + w)
  }

  /** The segment from `lastpt` through `pt1`, `pt2` to `pt3` is a curve unless `pt1` is the last point and `pt2` the end point. */
  predicate Curved(lastpt: Option<string>, pt1: Option<string>, pt2: Option<string>, pt3: Option<string>)
    ensures lastpt == pt1 && pt2 == pt3 ==> !Curved(lastpt, pt1, pt2, pt3)
  {
    Text(lastpt) != Text(pt1) || Text(pt2) != Text(pt3)
  }

  /**
   * The rest of a conversion from token `i`, with command `cmd` and last
   * point `lastpt`. A `Z` that is the last token leaves the command as it
   * is, but nothing follows it then. Only a command other than M and C
   * stops it: the starting one or a token of the path.
   */
  function Run(raw: seq<string>, i: nat, cmd: Option<string>, lastpt: Option<string>): (r: Outcome)
    ensures r.Died? ==> r.cmd != Some("M") && r.cmd != Some("C")
    ensures r.Died? ==> r.cmd == cmd || (r.cmd.Some? && r.cmd.value in raw)
    decreases |raw| - i
  {
    if i >= |raw| then Written([], [])
    else if cmd == Some("M") then Run(raw, i + 2, Tok(raw, i + 1), Tok(raw, i))
    else if cmd == Some("C") then
      if raw[i] == "Z" then Prepend(["-1,-1"], [], Run(raw, i + 2, Tok(raw, i + 1), lastpt))
      else
        var pt1, pt2, pt3 := Tok(raw, i), Tok(raw, i + 1), Tok(raw, i + 2);
        var warned := if Curved(lastpt, pt1, pt2, pt3) then [Text(pt1)] else [];
        Prepend([Strip00(Text(pt3))], warned, Run(raw, i + 3, cmd, pt3))
    else Died(cmd, [])
  }

  /**
   * The conversion of one path's data: a path of one token writes nothing,
   * and a conversion stops only at a token of the path other than M and C.
   */
  function Converted(d: string): (r: Outcome)
    ensures |Split(d)| == 1 ==> r == Written([], [])
    ensures r.Died? ==> r.cmd.Some? && r.cmd.value in Split(d) && r.cmd.value != "M" && r.cmd.value != "C"
  {
    var raw := Split(d);
    Run(raw, 1, Some(raw[0]), None)
  }

  /** The number of tokens from `i` on. */
  function Remaining(raw: seq<string>, i: nat): nat {
    if i < |raw| then |raw| - i else 0
  }

  /** Each output line stands for at least one token, and each warning for one line. */
  lemma {:induction false} RunBounds(raw: seq<string>, i: nat, cmd: Option<string>, lastpt: Option<string>)
    ensures Run(raw, i, cmd, lastpt).Written? ==>
              |Run(raw, i, cmd, lastpt).lines| <= Remaining(raw, i) &&
              |Run(raw, i, cmd, lastpt).warnings| <= |Run(raw, i, cmd, lastpt).lines|
    ensures Run(raw, i, cmd, lastpt).Died? ==> |Run(raw, i, cmd, lastpt).printed| <= Remaining(raw, i)
    decreases |raw| - i
  {
    if i >= |raw| {
    } else if cmd == Some("M") {
      RunBounds(raw, i + 2, Tok(raw, i + 1), Tok(raw, i));
    } else if cmd == Some("C") {
      if raw[i] == "Z" {
        if i + 1 < |raw| {
          RunBounds(raw, i + 2, Tok(raw, i + 1), lastpt);
        } else {
          RunBounds(raw, i + 1, cmd, lastpt);
        }
      } else {
        RunBounds(raw, i + 3, cmd, Tok(raw, i + 2));
      }
    }
  }

  /** The tokens of straight segments from `prev` through the points `ws`: each is written start, end, end. */
  function Segments(prev: string, ws: seq<string>): (r: seq<string>)
    ensures |r| == 3 * |ws|
    decreases |ws|
  {
    if ws == [] then [] else [prev, ws[0], ws[0]] + Segments(ws[0], ws[1..])
  }

  /** Each point with its `.00`s removed. */
  function Stripped(ws: seq<string>): (r: seq<string>)
    ensures |r| == |ws| && forall k :: 0 <= k < |ws| ==> r[k] == Strip00(ws[k])
  {
    if ws == [] then [] else [Strip00(ws[0])] + Stripped(ws[1..])
  }

  /** The last of `prev` and the points `ws`. */
  function LastPoint(prev: string, ws: seq<string>): string {
    if ws == [] then prev else ws[|ws| - 1]
  }

  /** No point is the closing `Z`. */
  predicate NoClose(ws: seq<string>) {
    forall k :: 0 <= k < |ws| ==> ws[k] != "Z"
  }

  /** A run of straight segments writes each end point, stripped, and warns about none of them. */
  lemma {:induction false} StraightSegments(raw: seq<string>, i: nat, j: nat, prev: string, ws: seq<string>)
    requires j == i + 3 * |ws| <= |raw| && raw[i..j] == Segments(prev, ws)
    requires prev != "Z" && NoClose(ws)
    ensures Run(raw, i, Some("C"), Some(prev)) ==
            Prepend(Stripped(ws), [], Run(raw, j, Some("C"), Some(LastPoint(prev, ws))))
    decreases |ws|
  {
    if ws == [] {
      PrependNone(Run(raw, i, Some("C"), Some(prev)));
    } else {
      var last := LastPoint(prev, ws);
      var rest := Run(raw, j, Some("C"), Some(last));
      var next := Run(raw, i + 3, Some("C"), Some(ws[0]));
      SegmentsHead(raw, i, j, prev, ws);
      StraightStep(raw, i, prev, ws[0], next);
      assert |ws[1..]| == |ws| - 1;
      StraightSegments(raw, i + 3, j, ws[0], ws[1..]);
      assert LastPoint(ws[0], ws[1..]) == last;
      PrependTwice([Strip00(ws[0])], [], Stripped(ws[1..]), [], rest);
      assert [Strip00(ws[0])] + Stripped(ws[1..]) == Stripped(ws);
    }
  }

  /** The tokens of a non-empty run of segments: the start point, the first point twice, then the rest of the run. */
  lemma SegmentsHead(raw: seq<string>, i: nat, j: nat, prev: string, ws: seq<string>)
    requires ws != [] && j == i + 3 * |ws| <= |raw| && raw[i..j] == Segments(prev, ws)
    ensures raw[i] == prev && raw[i + 1] == ws[0] && raw[i + 2] == ws[0]
    ensures raw[i + 3..j] == Segments(ws[0], ws[1..])
  {
    var seg := raw[i..j];
    assert raw[i] == seg[0] && raw[i + 1] == seg[1] && raw[i + 2] == seg[2];
    assert raw[i + 3..j] == seg[3..];
  }

  /** A straight segment from `prev` to `w` writes `w`, stripped, and warns about nothing. */
  lemma StraightStep(raw: seq<string>, i: nat, prev: string, w: string, next: Outcome)
    requires i + 2 < |raw| && raw[i] == prev && prev != "Z" && raw[i + 1] == w && raw[i + 2] == w
    requires next == Run(raw, i + 3, Some("C"), Some(w))
    ensures Run(raw, i, Some("C"), Some(prev)) == Prepend([Strip00(w)], [], next)
  {
    RunSegment(raw, i, Some(prev));
  }

  /** One segment of a `C` command: its end point is written, and its start warned about when it is a curve. */
  lemma RunSegment(raw: seq<string>, i: nat, lastpt: Option<string>)
    requires i + 2 < |raw| && raw[i] != "Z"
    ensures Run(raw, i, Some("C"), lastpt) ==
            Prepend([Strip00(raw[i + 2])], if Curved(lastpt, Some(raw[i]), Some(raw[i + 1]), Some(raw[i + 2])) then [raw[i]] else [],
                    Run(raw, i + 3, Some("C"), Some(raw[i + 2])))
  {
  }

  /** The path data of a closed outline of straight segments: move to `v0`, the segments through `ws`, close. */
  function Outline(v0: string, ws: seq<string>): (r: seq<string>)
    ensures |r| == 3 * |ws| + 4
  {
    ["M", v0, "C"] + Segments(v0, ws) + ["Z"]
  }

  /** A point token: not empty, no whitespace, and not the closing `Z`. */
  predicate Point(t: string) {
    t != [] && NoSpace(t) && t != "Z"
  }

  /** `Z` in a `C` command writes one `-1,-1` line; the token after it, if any, is the next command. */
  lemma RunClose(raw: seq<string>, i: nat, lastpt: Option<string>)
    requires i < |raw| && raw[i] == "Z"
    ensures i + 1 < |raw| ==> Run(raw, i, Some("C"), lastpt) == Prepend(["-1,-1"], [], Run(raw, i + 2, Some(raw[i + 1]), lastpt))
    ensures i + 1 == |raw| ==> Run(raw, i, Some("C"), lastpt) == Written(["-1,-1"], [])
  {
    if i + 1 == |raw| {
      assert Run(raw, i + 2, None, lastpt) == Written([], []);
    }
  }

  /** A command other than `M` or `C` with tokens left aborts, and nothing more is printed. */
  lemma RunUnknown(raw: seq<string>, i: nat, cmd: Option<string>, lastpt: Option<string>)
    requires i < |raw| && cmd != Some("M") && cmd != Some("C")
    ensures Run(raw, i, cmd, lastpt) == Died(cmd, [])
  {
  }

  /** An outline of straight segments converts to its stripped points followed by `-1,-1`, with no warning. */
  lemma RunOutline(v0: string, ws: seq<string>)
    requires Point(v0) && forall k :: 0 <= k < |ws| ==> Point(ws[k])
    ensures Run(Outline(v0, ws), 1, Some("M"), None) == Written(Stripped(ws) + ["-1,-1"], [])
  {
    var raw := Outline(v0, ws);
    var n := 3 * |ws|;
    assert raw[1] == v0 && raw[2] == "C" && raw[3 + n] == "Z";
    RunMove(raw, 1, None);
    Middle(["M", v0, "C"], Segments(v0, ws), ["Z"]);
    RunSegmentsClose(raw, 3, 3 + n, v0, ws);
  }

  /** `M` consumes its point and the next command, and writes nothing. */
  lemma RunMove(raw: seq<string>, i: nat, lastpt: Option<string>)
    requires i < |raw|
    ensures Run(raw, i, Some("M"), lastpt) == Run(raw, i + 2, Tok(raw, i + 1), Tok(raw, i))
  {
  }

  /** Straight segments followed by the closing `Z` as the last token. */
  lemma RunSegmentsClose(raw: seq<string>, i: nat, j: nat, v0: string, ws: seq<string>)
    requires j == i + 3 * |ws| && j + 1 == |raw| && raw[i..j] == Segments(v0, ws) && raw[j] == "Z"
    requires v0 != "Z" && NoClose(ws)
    ensures Run(raw, i, Some("C"), Some(v0)) == Written(Stripped(ws) + ["-1,-1"], [])
  {
    var rest := Run(raw, j, Some("C"), Some(LastPoint(v0, ws)));
    assert Run(raw, i, Some("C"), Some(v0)) == Prepend(Stripped(ws), [], rest) by {
      StraightSegments(raw, i, j, v0, ws);
    }
    assert rest == Written(["-1,-1"], []) by {
      RunClose(raw, j, Some(LastPoint(v0, ws)));
    }
  }

  /** Each token of an outline whose segment tokens are points is a word. */
  lemma OutlineToken(v0: string, segs: seq<string>, k: nat)
    requires Point(v0) && forall m :: 0 <= m < |segs| ==> Point(segs[m])
    requires k < |segs| + 4
    ensures var t := (["M", v0, "C"] + segs + ["Z"])[k]; NoSpace(t) && t != []
  {
    var raw := ["M", v0, "C"] + segs + ["Z"];
    if 3 <= k < 3 + |segs| {
      MiddleAt(["M", v0, "C"], segs, ["Z"], k);
      assert Point(segs[k - 3]);
    } else if k == 0 {
      assert raw[k] == "M";
    } else if k == 1 {
      assert raw[k] == v0;
    } else if k == 2 {
      assert raw[k] == "C";
    } else {
      assert raw[k] == "Z";
    }
  }

  /** The middle part of a concatenation. */
  lemma Middle<T>(a: seq<T>, b: seq<T>, c: seq<T>)
    ensures (a + b + c)[|a|..|a| + |b|] == b
  {
  }

  /** An element of the middle part of a concatenation. */
  lemma MiddleAt<T>(a: seq<T>, b: seq<T>, c: seq<T>, k: nat)
    requires |a| <= k < |a| + |b|
    ensures (a + b + c)[k] == b[k - |a|]
  {
  }

  /** Every token of straight segments between points is a point. */
  lemma {:induction false} SegmentsPoints(prev: string, ws: seq<string>)
    requires Point(prev) && forall k :: 0 <= k < |ws| ==> Point(ws[k])
    ensures forall k :: 0 <= k < |Segments(prev, ws)| ==> Point(Segments(prev, ws)[k])
    decreases |ws|
  {
    if ws != [] {
      SegmentsPoints(ws[0], ws[1..]);
      forall k | 0 <= k < |Segments(prev, ws)|
        ensures Point(Segments(prev, ws)[k])
      {
        if k >= 3 {
          assert Segments(prev, ws)[k] == Segments(ws[0], ws[1..])[k - 3];
        }
      }
    }
  }

  /**
   * An outline of straight segments, written with single spaces, converts
   * to its points with `.00` removed followed by the closing `-1,-1`, with no
   * warning.
   */
  lemma StraightOutline(v0: string, ws: seq<string>)
    requires Point(v0) && forall k :: 0 <= k < |ws| ==> Point(ws[k])
    ensures Converted(Join(Outline(v0, ws))) == Written(Stripped(ws) + ["-1,-1"], [])
  {
    var raw := Outline(v0, ws);
    SegmentsPoints(v0, ws);
    forall k | 0 <= k < |raw|
      ensures NoSpace(raw[k]) && raw[k] != []
    {
      OutlineToken(v0, Segments(v0, ws), k);
    }
    SplitJoin(raw);
    RunOutline(v0, ws);
  }

  /** Loop state of a conversion: what is written so far, followed by the rest of the run, is the whole conversion. */
  ghost predicate Converting(d: string, raw: seq<string>, i: nat, cmd: Option<string>, lastpt: Option<string>, data: seq<string>, warnings: seq<string>) {
    raw == Split(d) && Converted(d) == Prepend(data, warnings, Run(raw, i, cmd, lastpt))
  }

  lemma ConvertBegin(d: string)
    ensures Converting(d, Split(d), 1, Tok(Split(d), 0), None, [], [])
  {
    PrependNone(Converted(d));
  }

  lemma ConvertMove(d: string, raw: seq<string>, i: nat, lastpt: Option<string>, data: seq<string>, warnings: seq<string>)
    requires Converting(d, raw, i, Some("M"), lastpt, data, warnings) && i < |raw|
    ensures Converting(d, raw, i + 2, Tok(raw, i + 1), Tok(raw, i), data, warnings)
  {
  }

  lemma ConvertClose(d: string, raw: seq<string>, i: nat, lastpt: Option<string>, data: seq<string>, warnings: seq<string>)
    requires Converting(d, raw, i, Some("C"), lastpt, data, warnings) && i < |raw| && raw[i] == "Z"
    ensures i + 1 < |raw| ==> Converting(d, raw, i + 2, Tok(raw, i + 1), lastpt, data + ["-1,-1"], warnings)
    ensures i + 1 >= |raw| ==> Converting(d, raw, i + 1, Some("C"), lastpt, data + ["-1,-1"], warnings)
  {
    var rest := Run(raw, i + 2, Tok(raw, i + 1), lastpt);
    CloseStep(raw, i, lastpt, rest);
    assert warnings + [] == warnings;
    if i + 1 < |raw| {
      ConvertAdvance(d, raw, i, Some("C"), lastpt, data, warnings, i + 2, Tok(raw, i + 1), lastpt, ["-1,-1"], []);
    } else {
      ConvertAdvance(d, raw, i, Some("C"), lastpt, data, warnings, i + 1, Some("C"), lastpt, ["-1,-1"], []);
    }
  }

  /** When the rest of the run writes some lines and warnings before going on from a later state, the loop state can move there. */
  lemma ConvertAdvance(d: string, raw: seq<string>, i: nat, cmd: Option<string>, lastpt: Option<string>, data: seq<string>, warnings: seq<string>,
                       i': nat, cmd': Option<string>, lastpt': Option<string>, lines: seq<string>, warned: seq<string>)
    requires Converting(d, raw, i, cmd, lastpt, data, warnings)
    requires Run(raw, i, cmd, lastpt) == Prepend(lines, warned, Run(raw, i', cmd', lastpt'))
    ensures Converting(d, raw, i', cmd', lastpt', data + lines, warnings + warned)
  {
    PrependTwice(data, warnings, lines, warned, Run(raw, i', cmd', lastpt'));
  }

  /** A close command writes the end-of-path marker and goes on two tokens later, or ends there. */
  lemma CloseStep(raw: seq<string>, i: nat, lastpt: Option<string>, rest: Outcome)
    requires i < |raw| && raw[i] == "Z" && rest == Run(raw, i + 2, Tok(raw, i + 1), lastpt)
    ensures Run(raw, i, Some("C"), lastpt) == Prepend(["-1,-1"], [], rest)
    ensures i + 1 >= |raw| ==> rest == Run(raw, i + 1, Some("C"), lastpt) == Written([], [])
  {
  }

  lemma ConvertSegment(d: string, raw: seq<string>, i: nat, lastpt: Option<string>, data: seq<string>, warnings: seq<string>)
    requires Converting(d, raw, i, Some("C"), lastpt, data, warnings) && i < |raw| && raw[i] != "Z"
    ensures Curved(lastpt, Tok(raw, i), Tok(raw, i + 1), Tok(raw, i + 2)) ==>
              Converting(d, raw, i + 3, Some("C"), Tok(raw, i + 2), data + [Strip00(Text(Tok(raw, i + 2)))], warnings + [Text(Tok(raw, i))])
    ensures !Curved(lastpt, Tok(raw, i), Tok(raw, i + 1), Tok(raw, i + 2)) ==>
              Converting(d, raw, i + 3, Some("C"), Tok(raw, i + 2), data + [Strip00(Text(Tok(raw, i + 2)))], warnings)
  {
    var pt1, pt2, pt3 := Tok(raw, i), Tok(raw, i + 1), Tok(raw, i + 2);
    var warned := if Curved(lastpt, pt1, pt2, pt3) then [Text(pt1)] else [];
    PrependTwice(data, warnings, [Strip00(Text(pt3))], warned, Run(raw, i + 3, Some("C"), pt3));
    assert warnings + [] == warnings;
  }

  lemma ConvertUnknown(d: string, raw: seq<string>, i: nat, cmd: Option<string>, lastpt: Option<string>, data: seq<string>, warnings: seq<string>)
    requires Converting(d, raw, i, cmd, lastpt, data, warnings) && i < |raw| && cmd != Some("M") && cmd != Some("C")
    ensures Converted(d) == Died(cmd, warnings)
  {
    assert warnings + [] == warnings;
  }

  lemma ConvertEnd(d: string, raw: seq<string>, i: nat, cmd: Option<string>, lastpt: Option<string>, data: seq<string>, warnings: seq<string>)
    requires Converting(d, raw, i, cmd, lastpt, data, warnings) && i >= |raw|
    ensures Converted(d) == Written(data, warnings)
  {
    assert data + [] == data && warnings + [] == warnings;
  }

  /**
   * Converts one path's data: splits it into tokens, then walks them with
   * the current command and last point, collecting the output lines and
   * the warnings.
   */
  method ConvertPath(d: string) returns (out: Outcome)
    ensures out == Converted(d)
  {
    var raw := Split(d);
    var i := 0;
    var cmd := Tok(raw, i);
    i := i + 1;
    var lastpt: Option<string> := None;
    var data: seq<string> := [];
    var warnings: seq<string> := [];
    ConvertBegin(d);
    while i < |raw|
      invariant Converting(d, raw, i, cmd, lastpt, data, warnings)
      decreases |raw| - i
    {
      if cmd == Some("M") {
        ConvertMove(d, raw, i, lastpt, data, warnings);
        lastpt := Tok(raw, i);
        cmd := Tok(raw, i + 1);
        i := i + 2;
      } else if cmd == Some("C") {
        var pt1 := Tok(raw, i);
        if pt1 == Some("Z") {
          ConvertClose(d, raw, i, lastpt, data, warnings);
          i := i + 1;
          data := data + ["-1,-1"];
          if i < |raw| {
            cmd := Tok(raw, i);
            i := i + 1;
          }
        } else {
          ConvertSegment(d, raw, i, lastpt, data, warnings);
          var pt2 := Tok(raw, i + 1);
          var pt3 := Tok(raw, i + 2);
          i := i + 3;
          if Curved(lastpt, pt1, pt2, pt3) {
            warnings := warnings + [Text(pt1)];
          }
          data := data + [Strip00(Text(pt3))];
          lastpt := pt3;
        }
      } else {
        ConvertUnknown(d, raw, i, cmd, lastpt, data, warnings);
        return Died(cmd, warnings);
      }
    }
    ConvertEnd(d, raw, i, cmd, lastpt, data, warnings);
    out := Written(data, warnings);
  }

  /** Prepending twice is prepending the joined parts. */
  lemma PrependTwice(lines: seq<string>, warnings: seq<string>, lines': seq<string>, warnings': seq<string>, o: Outcome)
    ensures Prepend(lines, warnings, Prepend(lines', warnings', o)) == Prepend(lines + lines', warnings + warnings', o)
  {
    match o
    case Written(l, w) =>
      assert lines + (lines' + l) == (lines + lines') + l;
      assert warnings + (warnings' + w) == (warnings + warnings') + w;
    case Died(c, w) =>
      assert warnings + (warnings' + w) == (warnings + warnings') + w;
  }

  lemma PrependNone(o: Outcome)
    ensures Prepend([], [], o) == o
  {
    match o
    case Written(l, w) =>
      assert [] + l == l && [] + w == w;
    case Died(c, w) =>
      assert [] + w == w;
  }
}
