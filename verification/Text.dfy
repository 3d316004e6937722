/** The `str` operations the parsers are built from: split, trim, find_map. */
module Text {
  import opened Wrappers

  /** The position of the first `c`, or the length of `s` when there is none. */
  function IndexOf(s: string, c: char): (i: nat)
    ensures i <= |s| && c !in s[..i] && (i < |s| ==> s[i] == c)
  {
    if |s| == 0 || s[0] == c then 0
    else
      var i := 1 + IndexOf(s[1..], c);
      assert s[..i] == [s[0]] + s[1..][..i - 1];
      i
  }

  /** `str::split_once`. */
  function SplitOnce(s: string, c: char): Option<(string, string)> {
    var i := IndexOf(s, c);
    if i == |s| then None else Some((s[..i], s[i + 1..]))
  }

  /** `str::split`: always at least one piece. */
  function Split(s: string, c: char): (parts: seq<string>)
    ensures |parts| > 0
    ensures forall i :: 0 <= i < |parts| ==> c !in parts[i]
    decreases |s|
  {
    var i := IndexOf(s, c);
    if i == |s| then [s] else [s[..i]] + Split(s[i + 1..], c)
  }

  function Join(parts: seq<string>, c: char): string {
    if |parts| == 0 then ""
    else if |parts| == 1 then parts[0]
    else parts[0] + [c] + Join(parts[1..], c)
  }

  /** `Iterator::find_map`: the first result that is present. */
  function FindMap<A, B>(xs: seq<A>, f: A -> Option<B>): Option<B> {
    if |xs| == 0 then None
    else if f(xs[0]).Some? then f(xs[0])
    else FindMap(xs[1..], f)
  }

  lemma IndexOfIs(s: string, c: char, i: nat)
    requires i <= |s| && c !in s[..i] && (i < |s| ==> s[i] == c)
    ensures IndexOf(s, c) == i
  {
    var k := IndexOf(s, c);
    assert forall j :: 0 <= j < i ==> s[..i][j] == s[j];
    assert forall j :: 0 <= j < k ==> s[..k][j] == s[j];
  }

  lemma SplitOnceAt(front: string, c: char, back: string)
    requires c !in front
    ensures SplitOnce(front + [c] + back, c) == Some((front, back))
  {
    var s := front + [c] + back;
    assert s[..|front|] == front && s[|front| + 1..] == back;
    IndexOfIs(s, c, |front|);
  }

  /** What `split_once` gives: nothing without the separator, or else the parts around the first one. */
  lemma SplitOnceExactly(s: string, c: char)
    ensures SplitOnce(s, c).None? <==> c !in s
    ensures forall front, back :: SplitOnce(s, c) == Some((front, back)) <==> c !in front && s == front + [c] + back
  {
    var i := IndexOf(s, c);
    if i < |s| {
      assert s == s[..i] + [c] + s[i + 1..];
    } else {
      assert s[..i] == s;
    }
    forall front, back | c !in front && s == front + [c] + back
      ensures SplitOnce(s, c) == Some((front, back))
    {
      SplitOnceAt(front, c, back);
    }
  }

  lemma SplitCons(part: string, c: char, rest: string)
    requires c !in part
    ensures Split(part + [c] + rest, c) == [part] + Split(rest, c)
  {
    var s := part + [c] + rest;
    assert s[..|part|] == part && s[|part| + 1..] == rest;
    IndexOfIs(s, c, |part|);
  }

  lemma SplitSingle(part: string, c: char)
    requires c !in part
    ensures Split(part, c) == [part]
  {
    IndexOfIs(part, c, |part|);
  }

  lemma {:induction false} JoinSnoc(parts: seq<string>, part: string, c: char)
    requires |parts| > 0
    ensures Join(parts + [part], c) == Join(parts, c) + [c] + part
  {
    if |parts| > 1 {
      JoinSnoc(parts[1..], part, c);
      assert (parts + [part])[1..] == parts[1..] + [part];
    }
  }

  /** Splitting undoes joining pieces that do not hold the separator. */
  lemma {:induction false} SplitJoin(parts: seq<string>, c: char)
    requires |parts| > 0 && forall i :: 0 <= i < |parts| ==> c !in parts[i]
    ensures Split(Join(parts, c), c) == parts
  {
    if |parts| == 1 {
      SplitSingle(parts[0], c);
    } else {
      SplitJoin(parts[1..], c);
      SplitCons(parts[0], c, Join(parts[1..], c));
      assert parts == [parts[0]] + parts[1..];
    }
  }

  /** A present result comes from the earliest element that has one. */
  lemma {:induction false} FindMapFirst<A, B>(xs: seq<A>, f: A -> Option<B>, i: nat)
    requires i < |xs| && f(xs[i]).Some?
    requires forall j :: 0 <= j < i ==> f(xs[j]).None?
    ensures FindMap(xs, f) == f(xs[i])
  {
    if i > 0 {
      assert xs[0] == xs[0] && f(xs[0]).None?;
      FindMapFirst(xs[1..], f, i - 1);
    }
  }

  /** A result is present exactly when some element has one, and is the earliest one's. */
  lemma {:induction false} FindMapExactly<A, B>(xs: seq<A>, f: A -> Option<B>) returns (i: nat)
    ensures FindMap(xs, f).None? ==> forall j :: 0 <= j < |xs| ==> f(xs[j]).None?
    ensures FindMap(xs, f).Some? ==>
              i < |xs| && f(xs[i]) == FindMap(xs, f) && forall j :: 0 <= j < i ==> f(xs[j]).None?
  {
    i := 0;
    if |xs| > 0 && f(xs[0]).None? {
      var k := FindMapExactly(xs[1..], f);
      assert forall j :: 1 <= j < |xs| ==> xs[j] == xs[1..][j - 1];
      i := k + 1;
    }
  }

  /** The Unicode White_Space property, which `str::trim` removes. */
  predicate IsWhitespace(c: char) {
    var n := c as int;
    || 0x09 <= n <= 0x0D
    || n == 0x20 || n == 0x85 || n == 0xA0 || n == 0x1680
    || 0x2000 <= n <= 0x200A
    || n == 0x2028 || n == 0x2029 || n == 0x202F || n == 0x205F || n == 0x3000
  }

  /** The 25 characters of that property, one by one. */
  lemma WhitespaceExactly(c: char)
    ensures IsWhitespace(c) <==>
            c in ['\t', '\n', '\U{0B}', '\U{0C}', '\r', ' ', '\U{85}', '\U{A0}', '\U{1680}',
                  '\U{2000}', '\U{2001}', '\U{2002}', '\U{2003}', '\U{2004}', '\U{2005}', '\U{2006}',
                  '\U{2007}', '\U{2008}', '\U{2009}', '\U{200A}',
                  '\U{2028}', '\U{2029}', '\U{202F}', '\U{205F}', '\U{3000}']
  {
  }

  predicate IsBlank(s: string) {
    forall i :: 0 <= i < |s| ==> IsWhitespace(s[i])
  }

  function TrimStart(s: string): string {
    if |s| > 0 && IsWhitespace(s[0]) then TrimStart(s[1..]) else s
  }

  function TrimEnd(s: string): string {
    if |s| > 0 && IsWhitespace(s[|s| - 1]) then TrimEnd(s[..|s| - 1]) else s
  }

  /** `str::trim`. */
  function Trim(s: string): string {
    TrimEnd(TrimStart(s))
  }

  /** No whitespace at either end. */
  predicate IsTrimmed(s: string) {
    |s| > 0 ==> !IsWhitespace(s[0]) && !IsWhitespace(s[|s| - 1])
  }

  lemma {:induction false} TrimStartPadded(pre: string, s: string)
    requires IsBlank(pre)
    ensures TrimStart(pre + s) == TrimStart(s)
  {
    if |pre| == 0 {
      assert pre + s == s;
    } else {
      assert (pre + s)[1..] == pre[1..] + s;
      TrimStartPadded(pre[1..], s);
    }
  }

  lemma {:induction false} TrimEndPadded(s: string, post: string)
    requires IsBlank(post)
    ensures TrimEnd(s + post) == TrimEnd(s)
  {
    if |post| == 0 {
      assert s + post == s;
    } else {
      assert (s + post)[..|s + post| - 1] == s + post[..|post| - 1];
      TrimEndPadded(s, post[..|post| - 1]);
    }
  }

  /** Trimming gives back exactly what was padded. */
  lemma TrimPadded(pre: string, s: string, post: string)
    requires IsBlank(pre) && IsBlank(post) && IsTrimmed(s)
    ensures Trim(pre + s + post) == s
  {
    assert pre + s + post == pre + (s + post);
    TrimStartPadded(pre, s + post);
    if |s| == 0 {
      assert s + post == post && post + "" == post;
      TrimStartPadded(post, "");
    } else {
      assert TrimStart(s + post) == s + post;
      TrimEndPadded(s, post);
    }
  }

  /** Blanks, then a trimmed core, then blanks: every string is of this shape. */
  lemma TrimDecomposes(s: string) returns (front: string, back: string)
    ensures IsBlank(front) && IsBlank(back) && IsTrimmed(Trim(s)) && s == front + Trim(s) + back
  {
    hide TrimStart;
    hide TrimEnd;
    front := TrimStartDecomposes(s);
    back := TrimEndDecomposes(TrimStart(s));
    var t := TrimStart(s);
    if |Trim(s)| > 0 {
      assert Trim(s)[0] == t[0];
    }
  }

  lemma {:induction false} TrimStartDecomposes(s: string) returns (front: string)
    ensures IsBlank(front) && s == front + TrimStart(s)
    ensures |TrimStart(s)| > 0 ==> !IsWhitespace(TrimStart(s)[0])
  {
    front := "";
    if |s| > 0 && IsWhitespace(s[0]) {
      var rest := TrimStartDecomposes(s[1..]);
      front := [s[0]] + rest;
    }
  }

  lemma {:induction false} TrimEndDecomposes(s: string) returns (back: string)
    ensures IsBlank(back) && s == TrimEnd(s) + back
    ensures |TrimEnd(s)| > 0 ==> !IsWhitespace(TrimEnd(s)[|TrimEnd(s)| - 1])
  {
    back := "";
    if |s| > 0 && IsWhitespace(s[|s| - 1]) {
      var rest := TrimEndDecomposes(s[..|s| - 1]);
      back := rest + [s[|s| - 1]];
    }
  }
}
