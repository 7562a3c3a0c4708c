/** The comma-separated length list of a catalog variant: `value.split(',').map(s => s.trim())`
    turns the input box into `lengths`, and `lengths.join(', ')` turns it back into the box. */
module Lengths {

  /** ECMAScript white space and line terminators, the characters `String.prototype.trim` removes:
      TAB, VT, FF, SP, NBSP, ZWNBSP, LF, CR, LS, PS and the space separators (category Zs). */
  predicate IsSpace(c: char) {
    || c == '\t' || c == '\n' || c == '\U{B}' || c == '\U{C}' || c == '\r' || c == ' '
    || c == '\U{A0}' || c == '\U{1680}' || ('\U{2000}' <= c <= '\U{200A}')
    || c == '\U{2028}' || c == '\U{2029}' || c == '\U{202F}' || c == '\U{205F}'
    || c == '\U{3000}' || c == '\U{FEFF}'
  }

  /** Every character of `s` from `lo` up to `hi` is white space. */
  predicate SpaceBetween(s: string, lo: int, hi: int) {
    0 <= lo <= hi <= |s| && forall k :: lo <= k < hi ==> IsSpace(s[k])
  }

  /** A string with no white space at either end. */
  predicate IsTrimmed(s: string) {
    s == [] || (!IsSpace(s[0]) && !IsSpace(s[|s| - 1]))
  }

  /** The first position at or after `i` that does not hold white space, or `|s|`. */
  function SkipSpaceForward(s: string, i: nat): (n: nat)
    requires i <= |s|
    ensures i <= n <= |s| && SpaceBetween(s, i, n)
    ensures n == |s| || !IsSpace(s[n])
    decreases |s| - i
  {
    if i == |s| || !IsSpace(s[i]) then i else SkipSpaceForward(s, i + 1)
  }

  /** The last position down to `lo` that ends a stretch of white space reaching `j`: the
      character before it is not white space, unless it is `lo` itself. */
  function SkipSpaceBackward(s: string, lo: nat, j: nat): (m: nat)
    requires lo <= j <= |s|
    ensures lo <= m <= j && SpaceBetween(s, m, j)
    ensures m == lo || !IsSpace(s[m - 1])
    decreases j - lo
  {
    if j == lo || !IsSpace(s[j - 1]) then j else SkipSpaceBackward(s, lo, j - 1)
  }

  /** `s` is white space, then `r` starting at offset `i`, then white space. */
  ghost predicate PaddedAround(s: string, i: int, r: string) {
    0 <= i && i + |r| <= |s| && r == s[i..i + |r|] && SpaceBetween(s, 0, i) && SpaceBetween(s, i + |r|, |s|)
  }

  /** `String.prototype.trim`: the slice between the leading and the trailing white space. */
  function Trim(s: string): (r: string)
    ensures IsTrimmed(r)
    ensures PaddedAround(s, SkipSpaceForward(s, 0), r)
    ensures IsTrimmed(s) ==> r == s
  {
    var lo := SkipSpaceForward(s, 0);
    var hi := SkipSpaceBackward(s, lo, |s|);
    s[lo..hi]
  }

  /** Trimming a comma-free string leaves it comma-free. */
  lemma TrimCommaFree(s: string)
    requires ',' !in s
    ensures ',' !in Trim(s)
  {
    var r := Trim(s);
    var i := SkipSpaceForward(s, 0);
    forall j | 0 <= j < |r| ensures r[j] != ',' {
      assert r[j] == s[i + j];
    }
  }

  /** The number of commas in `s`, the separators `split(',')` cuts at. */
  function Commas(s: string): nat {
    if s == [] then 0 else (if s[0] == ',' then 1 else 0) + Commas(s[1..])
  }

  /** `s.split(',')`: the pieces between commas, in order, empty pieces kept. */
  function Split(s: string): (r: seq<string>)
    ensures |r| == Commas(s) + 1
    ensures forall k :: 0 <= k < |r| ==> ',' !in r[k]
    decreases |s|
  {
    if s == [] then [""]
    else
      var rest := Split(s[1..]);
      assert s == [s[0]] + s[1..];
      if s[0] == ',' then [""] + rest
      else [[s[0]] + rest[0]] + rest[1..]
  }

  /** `parts.join(sep)`. */
  function Join(parts: seq<string>, sep: string): (r: string)
    ensures parts == [] ==> r == ""
    ensures |parts| >= 1 ==> parts[0] <= r
  {
    if parts == [] then ""
    else if |parts| == 1 then parts[0]
    else parts[0] + sep + Join(parts[1..], sep)
  }

  /** Gluing `x` onto the first piece glues it onto the front of the joined text. */
  lemma JoinGlued(x: string, parts: seq<string>, sep: string)
    requires |parts| >= 1
    ensures Join([x + parts[0]] + parts[1..], sep) == x + Join(parts, sep)
  {
    var glued := [x + parts[0]] + parts[1..];
    if |parts| > 1 {
      assert glued[1..] == parts[1..];
    }
  }

  /** Joining the pieces back with commas gives the original string: `split(',')` loses nothing. */
  lemma {:induction false} JoinSplit(s: string)
    ensures Join(Split(s), ",") == s
    decreases |s|
  {
    if s != [] {
      JoinSplit(s[1..]);
      var rest := Split(s[1..]);
      assert s == [s[0]] + s[1..];
      if s[0] == ',' {
        assert Split(s) == [""] + rest;
        assert ([""] + rest)[1..] == rest;
      } else {
        assert Split(s) == [[s[0]] + rest[0]] + rest[1..];
        JoinGlued([s[0]], rest, ",");
      }
    }
  }

  /** A comma-free prefix joins the first piece of what follows it. */
  lemma {:induction false} SplitPrefix(t: string, rest: string)
    requires ',' !in t
    ensures Split(t + rest) == [t + Split(rest)[0]] + Split(rest)[1..]
    decreases |t|
  {
    if t != [] {
      SplitPrefix(t[1..], rest);
      var sr := Split(rest);
      var r1 := Split(t[1..] + rest);
      assert t[0] in t;
      assert (t + rest)[0] == t[0] != ',';
      assert (t + rest)[1..] == t[1..] + rest;
      assert Split(t + rest) == [[t[0]] + r1[0]] + r1[1..];
      assert r1[0] == t[1..] + sr[0] && r1[1..] == sr[1..];
      assert [t[0]] + (t[1..] + sr[0]) == t + sr[0];
    } else {
      assert t + rest == rest;
      var sr := Split(rest);
      assert t + sr[0] == sr[0];
      assert sr == [sr[0]] + sr[1..];
    }
  }

  /** Splitting a `", "`-joined list of comma-free tokens gives the first token and then
      every other token with the one space the separator left in front of it. */
  lemma {:induction false} SplitJoinedBySpacedComma(ts: seq<string>)
    requires |ts| >= 1
    requires forall k :: 0 <= k < |ts| ==> ',' !in ts[k]
    ensures |Split(Join(ts, ", "))| == |ts|
    ensures Split(Join(ts, ", "))[0] == ts[0]
    ensures forall k :: 1 <= k < |ts| ==> Split(Join(ts, ", "))[k] == " " + ts[k]
    decreases |ts|
  {
    if |ts| == 1 {
      SplitNoComma(ts[0]);
    } else {
      var tail := Join(ts[1..], ", ");
      SplitJoinedBySpacedComma(ts[1..]);
      SplitAfterSpacedComma(ts[0], tail);
      assert Join(ts, ", ") == ts[0] + ", " + tail;
    }
  }

  /** Splitting at a `", "` after a comma-free piece gives that piece, then the first piece of
      the rest with the space in front of it, then the other pieces of the rest. */
  lemma SplitAfterSpacedComma(t: string, tail: string)
    requires ',' !in t
    ensures Split(t + ", " + tail) == [t, " " + Split(tail)[0]] + Split(tail)[1..]
  {
    assert t + ", " + tail == t + "," + (" " + tail);
    SplitPrefix(" ", tail);
    SplitAtComma(t, " " + tail);
  }

  /** `value.split(',').map(s => s.trim())`: one trimmed entry per comma-separated piece. */
  function ParseLengths(value: string): (r: seq<string>)
    ensures |r| == Commas(value) + 1
    ensures forall k :: 0 <= k < |r| ==> IsTrimmed(r[k]) && ',' !in r[k]
    ensures forall k :: 0 <= k < |r| ==>
      PaddedAround(Split(value)[k], SkipSpaceForward(Split(value)[k], 0), r[k])
  {
    var pieces := Split(value);
    var r := seq(|pieces|, k requires 0 <= k < |pieces| => Trim(pieces[k]));
    assert forall k :: 0 <= k < |r| ==> ',' !in r[k] by {
      forall k | 0 <= k < |r| ensures ',' !in r[k] {
        TrimCommaFree(pieces[k]);
      }
    }
    r
  }

  /** `lengths.join(', ')`, the text the input box shows. */
  function ShowLengths(lengths: seq<string>): (r: string)
    ensures lengths == [] ==> r == ""
    ensures |lengths| >= 1 && (forall k :: 0 <= k < |lengths| ==> ',' !in lengths[k]) ==>
      |Split(r)| == |lengths| && Split(r)[0] == lengths[0]
      && forall k :: 1 <= k < |lengths| ==> Split(r)[k] == " " + lengths[k]
  {
    if |lengths| >= 1 && (forall k :: 0 <= k < |lengths| ==> ',' !in lengths[k]) then
      SplitJoinedBySpacedComma(lengths);
      Join(lengths, ", ")
    else
      Join(lengths, ", ")
  }

  /** One leading space in front of a trimmed token is what `trim` removes. */
  lemma TrimSpaced(t: string)
    requires IsTrimmed(t)
    ensures Trim(" " + t) == t
  {
    var s := " " + t;
    assert SkipSpaceForward(s, 0) == SkipSpaceForward(s, 1) == 1;
    assert SkipSpaceBackward(s, 1, |s|) == |s|;
    assert s[1..] == t;
  }

  /** The list shown in the box, parsed again, is the list itself, provided it is not empty
      and its entries are trimmed and comma-free. */
  lemma ParseShowRoundTrip(lengths: seq<string>)
    requires |lengths| >= 1
    requires forall k :: 0 <= k < |lengths| ==> IsTrimmed(lengths[k]) && ',' !in lengths[k]
    ensures ParseLengths(ShowLengths(lengths)) == lengths
  {
    SplitJoinedBySpacedComma(lengths);
    var pieces := Split(ShowLengths(lengths));
    forall k | 1 <= k < |lengths| ensures Trim(pieces[k]) == lengths[k] {
      TrimSpaced(lengths[k]);
    }
  }

  /** The empty list does not survive: its box is empty, and an empty box parses to one empty entry. */
  lemma EmptyListShowsAsOneEmptyEntry()
    ensures ShowLengths([]) == ""
    ensures ParseLengths(ShowLengths([])) == [""]
  {
    assert Split("") == [""];
  }

  /** A comma-free piece followed by a comma is one whole piece. */
  lemma SplitAtComma(t: string, rest: string)
    requires ',' !in t
    ensures Split(t + "," + rest) == [t] + Split(rest)
  {
    SplitPrefix(t, "," + rest);
    assert ("," + rest)[1..] == rest;
    var sr := Split(rest);
    assert Split("," + rest) == [""] + sr;
    assert t + "," + rest == t + ("," + rest);
    assert t + "" == t;
  }

  /** A comma-free string is a single piece. */
  lemma SplitNoComma(t: string)
    requires ',' !in t
    ensures Split(t) == [t]
  {
    SplitPrefix(t, "");
    assert t + "" == t;
  }

  /** `"a,,b".split(',')` keeps the empty piece between the two commas. */
  lemma SplitKeepsEmptyPieces()
    ensures Split("a,,b") == ["a", "", "b"]
  {
    SplitNoComma("b");
    SplitAtComma("", "b");
    SplitAtComma("a", ",b");
    assert "a" + "," + ",b" == "a,,b";
    assert "" + "," + "b" == ",b";
  }

  /** When every piece is already trimmed, parsing is splitting. */
  lemma ParseOfTrimmedPieces(value: string)
    requires forall k :: 0 <= k < |Split(value)| ==> IsTrimmed(Split(value)[k])
    ensures ParseLengths(value) == Split(value)
  {
  }

  /** Empty pieces are kept, in place, and an empty box gives one empty entry. */
  lemma ParseKeepsEmptyPieces()
    ensures ParseLengths("a,,b") == ["a", "", "b"]
    ensures ParseLengths("") == [""]
  {
    SplitKeepsEmptyPieces();
    var pieces := Split("a,,b");
    assert IsTrimmed(pieces[0]) && IsTrimmed(pieces[1]) && IsTrimmed(pieces[2]);
    ParseOfTrimmedPieces("a,,b");
    assert Split("") == [""];
    ParseOfTrimmedPieces("");
  }

  /** A box as the form shows it parses back to its entries. */
  lemma ParseShownBox()
    ensures ParseLengths("8.0 mm, 10 mm, 12 mm") == ["8.0 mm", "10 mm", "12 mm"]
  {
    ShownBoxText();
    PlaceholderEntries();
    ParseShowRoundTrip(["8.0 mm", "10 mm", "12 mm"]);
  }

  /** The placeholder lengths are trimmed and comma-free. */
  lemma PlaceholderEntries()
    ensures forall k :: 0 <= k < |["8.0 mm", "10 mm", "12 mm"]| ==>
      IsTrimmed(["8.0 mm", "10 mm", "12 mm"][k]) && ',' !in ["8.0 mm", "10 mm", "12 mm"][k]
  {
    var lengths := ["8.0 mm", "10 mm", "12 mm"];
    assert IsTrimmed(lengths[0]) && IsTrimmed(lengths[1]) && IsTrimmed(lengths[2]);
    assert ',' !in lengths[0] && ',' !in lengths[1] && ',' !in lengths[2];
  }

  /** The three placeholder lengths show as the placeholder text. */
  lemma ShownBoxText()
    ensures ShowLengths(["8.0 mm", "10 mm", "12 mm"]) == "8.0 mm, 10 mm, 12 mm"
  {
    var lengths := ["8.0 mm", "10 mm", "12 mm"];
    assert lengths[1..] == ["10 mm", "12 mm"] && lengths[1..][1..] == ["12 mm"];
    assert Join(lengths, ", ") == "8.0 mm, 10 mm, 12 mm";
  }
}
