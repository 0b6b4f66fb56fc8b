/** The string operations of JavaScript that the web pages use. */
module Text {

  /** White space and line terminators, what `trim` removes. */
  predicate IsSpace(c: char)
  {
    || '\t' <= c <= '\r' || c == ' ' || c == '\U{A0}' || c == '\U{1680}' || '\U{2000}' <= c <= '\U{200A}'
    || c == '\U{2028}' || c == '\U{2029}' || c == '\U{202F}' || c == '\U{205F}' || c == '\U{3000}' || c == '\U{FEFF}'
  }

  predicate Trimmed(s: string) { s == "" || (!IsSpace(s[0]) && !IsSpace(s[|s| - 1])) }

  function Trim(s: string): (t: string)
    ensures Trimmed(t) && (Trimmed(s) ==> t == s)
    ensures forall c :: c in t ==> c in s
  {
    if s == "" then ""
    else if IsSpace(s[0]) then Trim(s[1..])
    else if IsSpace(s[|s| - 1]) then Trim(s[..|s| - 1])
    else s
  }

  predicate Spaces(s: string) { forall i :: 0 <= i < |s| ==> IsSpace(s[i]) }

  /** What is trimmed is exactly the white space around a text. */
  lemma {:induction false} TrimPadded(l: string, s: string, r: string)
    requires Trimmed(s) && s != "" && Spaces(l) && Spaces(r)
    ensures Trim(l + s + r) == s
    decreases |l| + |r|
  {
    var padded := l + s + r;
    if l != "" {
      assert padded[0] == l[0] && padded[1..] == l[1..] + s + r;
      TrimPadded(l[1..], s, r);
    } else if r != "" {
      var n := |r| - 1;
      assert padded[0] == s[0] && padded[|padded| - 1] == r[n] && padded[..|padded| - 1] == l + s + r[..n];
      TrimPadded(l, s, r[..n]);
    } else {
      assert padded == s;
    }
  }

  lemma {:induction false} TrimSpaces(s: string)
    requires Spaces(s)
    ensures Trim(s) == ""
  {
    if s == "" {
    } else {
      TrimSpaces(s[1..]);
    }
  }

  /** The first character that is not white space stays the first. */
  lemma {:induction false} TrimKeepsFirst(l: string, s: string)
    requires Spaces(l) && s != "" && !IsSpace(s[0])
    ensures Trim(l + s) != "" && Trim(l + s)[0] == s[0]
    decreases |l| + |s|
  {
    if l != "" {
      assert (l + s)[1..] == l[1..] + s;
      TrimKeepsFirst(l[1..], s);
    } else if IsSpace(s[|s| - 1]) {
      assert l + s == s && l + s[..|s| - 1] == s[..|s| - 1];
      TrimKeepsFirst(l, s[..|s| - 1]);
    } else {
      assert l + s == s;
    }
  }

  function LowerChar(c: char): char
  {
    if 'A' <= c <= 'Z' then (c as int + 32) as char else c
  }

  function Lower(s: string): (t: string)
    ensures |t| == |s| && forall i :: 0 <= i < |s| ==> t[i] == LowerChar(s[i])
  {
    if s == "" then "" else [LowerChar(s[0])] + Lower(s[1..])
  }

  lemma LowerConcat(a: string, b: string)
    ensures Lower(a + b) == Lower(a) + Lower(b)
  {
    hide Lower;
    assert forall i :: 0 <= i < |a + b| ==> Lower(a + b)[i] == (Lower(a) + Lower(b))[i];
  }

  lemma LowerTwice(s: string)
    ensures Lower(Lower(s)) == Lower(s) && (Trimmed(s) ==> Trimmed(Lower(s)))
  {
    hide Lower;
    assert forall i :: 0 <= i < |s| ==> Lower(Lower(s))[i] == Lower(s)[i];
  }

  predicate EndsWith(s: string, end: string) { |end| <= |s| && s[|s| - |end|..] == end }

  function Split(s: string, c: char): (parts: seq<string>)
    ensures parts != []
  {
    if s == "" then [""]
    else Grow(s[0], Split(s[1..], c), c)
  }

  /** The parts of a text from those after its first character. */
  function Grow(first: char, parts: seq<string>, c: char): (r: seq<string>)
    requires parts != []
    ensures r != []
  {
    if first == c then [""] + parts else [[first] + parts[0]] + parts[1..]
  }

  lemma GrowBoth(first: char, parts: seq<string>, more: seq<string>, c: char)
    requires parts != []
    ensures Grow(first, parts + more, c) == Grow(first, parts, c) + more
  {
  }

  lemma {:induction false} SplitFirst(a: string, b: string, c: char)
    requires c !in a
    ensures Split(a + [c] + b, c) == [a] + Split(b, c)
  {
    var s := a + [c] + b;
    if a == "" {
      assert s[0] == c && s[1..] == b;
    } else {
      SplitFirst(a[1..], b, c);
      assert s[0] == a[0] && s[1..] == a[1..] + [c] + b;
      assert [a[0]] + a[1..] == a;
    }
  }

  lemma {:induction false} SplitBoth(a: string, b: string, c: char)
    ensures Split(a + [c] + b, c) == Split(a, c) + Split(b, c)
  {
    var s := a + [c] + b;
    if a == "" {
      assert s[0] == c && s[1..] == b;
    } else {
      hide Grow;
      SplitBoth(a[1..], b, c);
      assert s[0] == a[0] && s[1..] == a[1..] + [c] + b;
      GrowBoth(a[0], Split(a[1..], c), Split(b, c), c);
    }
  }

  lemma {:induction false} SplitNone(s: string, c: char)
    requires c !in s
    ensures Split(s, c) == [s]
  {
    if s == "" {
    } else {
      SplitNone(s[1..], c);
      assert [s[0]] + s[1..] == s;
    }
  }

  function Join(parts: seq<string>, c: char): string
    requires parts != []
  {
    if |parts| == 1 then parts[0] else parts[0] + [c] + Join(parts[1..], c)
  }

  lemma {:induction false} SplitThenJoin(s: string, c: char)
    ensures Join(Split(s, c), c) == s
  {
    if s == "" {
    } else {
      SplitThenJoin(s[1..], c);
      var rest, parts := Split(s[1..], c), Split(s, c);
      if s[0] == c {
        assert parts[1..] == rest;
      } else if |rest| > 1 {
        assert parts[1..] == rest[1..];
      }
    }
  }

  /** Position of the first or last `c`, -1 if there is none. */
  function IndexOf(s: string, c: char): (i: int)
    ensures -1 <= i < |s| && (i >= 0 ==> s[i] == c)
    ensures forall j :: 0 <= j < (if i < 0 then |s| else i) ==> s[j] != c
  {
    if s == "" then -1
    else if s[0] == c then 0
    else var i := IndexOf(s[1..], c); if i < 0 then -1 else i + 1
  }

  function LastIndexOf(s: string, c: char): (i: int)
    ensures -1 <= i < |s| && (i >= 0 ==> s[i] == c)
    ensures forall j :: i < j < |s| ==> s[j] != c
  {
    if s == "" then -1
    else if s[|s| - 1] == c then |s| - 1
    else LastIndexOf(s[..|s| - 1], c)
  }
}
