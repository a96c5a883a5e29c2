/** The JavaScript string operations the engine relies on, as pure functions
    over `seq<char>`: `trim`, regex character-class filters, `includes`,
    `lastIndexOf`, single `replace`, `padStart`/`padEnd` and `toUpperCase`. */
module Text {

  /** JavaScript's whitespace: the set removed by `String.prototype.trim` and
      matched by the regex class `\s` (WhiteSpace and LineTerminator of
      ECMAScript). */
  predicate IsJsSpace(c: char) {
    var k := c as int;
    || (9 <= k <= 13)          // tab, line feed, vertical tab, form feed, carriage return
    || k == 0x20 || k == 0xA0 || k == 0x1680
    || (0x2000 <= k <= 0x200A)
    || k == 0x2028 || k == 0x2029 || k == 0x202F || k == 0x205F
    || k == 0x3000 || k == 0xFEFF
  }

  /** The regex class `\d`: ASCII digits only. */
  predicate IsDigit(c: char) {
    '0' <= c <= '9'
  }

  /** The characters of `s` that satisfy `p`, in order (a global
      `replace(/[...]/g, "")` with the complementary class). */
  function Keep(s: string, p: char -> bool): (r: string)
    ensures |r| <= |s|
    ensures forall i :: 0 <= i < |r| ==> p(r[i])
    ensures forall c :: c in r <==> c in s && p(c)
  {
    if s == [] then []
    else if p(s[0]) then [s[0]] + Keep(s[1..], p)
    else Keep(s[1..], p)
  }

  /** `s` without the characters that satisfy `p`. */
  function Drop(s: string, p: char -> bool): (r: string)
    ensures |r| <= |s|
    ensures forall i :: 0 <= i < |r| ==> !p(r[i])
    ensures forall c :: c in r <==> c in s && !p(c)
  {
    if s == [] then []
    else if p(s[0]) then Drop(s[1..], p)
    else [s[0]] + Drop(s[1..], p)
  }

  /** Number of characters of `s` that satisfy `p` (the length of a global
      `match`). */
  function Count(s: string, p: char -> bool): (n: nat)
    ensures n <= |s|
    ensures n == 0 <==> forall i :: 0 <= i < |s| ==> !p(s[i])
  {
    if s == [] then 0
    else (if p(s[0]) then 1 else 0) + Count(s[1..], p)
  }

  lemma {:induction false} KeepAppend(a: string, b: string, p: char -> bool)
    ensures Keep(a + b, p) == Keep(a, p) + Keep(b, p)
  {
    if a == [] {
      assert a + b == b;
    } else {
      assert (a + b)[0] == a[0];
      assert (a + b)[1..] == a[1..] + b;
      KeepAppend(a[1..], b, p);
      if p(a[0]) {
        assert [a[0]] + (Keep(a[1..], p) + Keep(b, p)) == ([a[0]] + Keep(a[1..], p)) + Keep(b, p);
      }
    }
  }

  lemma {:induction false} DropAppend(a: string, b: string, p: char -> bool)
    ensures Drop(a + b, p) == Drop(a, p) + Drop(b, p)
  {
    if a == [] {
      assert a + b == b;
    } else {
      assert (a + b)[0] == a[0];
      assert (a + b)[1..] == a[1..] + b;
      DropAppend(a[1..], b, p);
      if !p(a[0]) {
        assert [a[0]] + (Drop(a[1..], p) + Drop(b, p)) == ([a[0]] + Drop(a[1..], p)) + Drop(b, p);
      }
    }
  }

  lemma {:induction false} CountAppend(a: string, b: string, p: char -> bool)
    ensures Count(a + b, p) == Count(a, p) + Count(b, p)
  {
    if a == [] {
      assert a + b == b;
    } else {
      assert (a + b)[0] == a[0];
      assert (a + b)[1..] == a[1..] + b;
      CountAppend(a[1..], b, p);
    }
  }

  /** Dropping characters outside `p` keeps the count of `p`. */
  lemma {:induction false} CountDrop(s: string, p: char -> bool, q: char -> bool)
    requires forall c :: q(c) ==> !p(c)
    ensures Count(Drop(s, q), p) == Count(s, p)
  {
    if s != [] {
      CountDrop(s[1..], p, q);
    }
  }

  /** Keeping a superset of `p` keeps the count of `p`. */
  lemma {:induction false} CountKeep(s: string, p: char -> bool, q: char -> bool)
    requires forall c :: p(c) ==> q(c)
    ensures Count(Keep(s, q), p) == Count(s, p)
  {
    if s != [] {
      CountKeep(s[1..], p, q);
    }
  }

  /** Keeping every character changes nothing. */
  lemma {:induction false} KeepAll(s: string, p: char -> bool)
    requires forall i :: 0 <= i < |s| ==> p(s[i])
    ensures Keep(s, p) == s
  {
    if s != [] {
      KeepAll(s[1..], p);
    }
  }

  /** Dropping characters that do not occur changes nothing. */
  lemma {:induction false} DropNone(s: string, p: char -> bool)
    requires forall i :: 0 <= i < |s| ==> !p(s[i])
    ensures Drop(s, p) == s
  {
    if s != [] {
      DropNone(s[1..], p);
    }
  }

  // ---------------------------------------------------------------------
  // trim

  function TrimStart(s: string): (r: string)
    ensures |r| <= |s| && r == s[|s| - |r|..]
    ensures forall i :: 0 <= i < |s| - |r| ==> IsJsSpace(s[i])
    ensures r != [] ==> !IsJsSpace(r[0])
  {
    if s != [] && IsJsSpace(s[0]) then TrimStart(s[1..]) else s
  }

  function TrimEnd(s: string): (r: string)
    ensures |r| <= |s| && r == s[..|r|]
    ensures forall i :: |r| <= i < |s| ==> IsJsSpace(s[i])
    ensures r != [] ==> !IsJsSpace(r[|r| - 1])
  {
    if s != [] && IsJsSpace(s[|s| - 1]) then TrimEnd(s[..|s| - 1]) else s
  }

  /** `String.prototype.trim`: a contiguous slice of `s` with only
      whitespace cut from either end, and no whitespace at its ends. */
  function Trim(s: string): (r: string)
    ensures |r| <= |s|
    ensures r != [] ==> !IsJsSpace(r[0]) && !IsJsSpace(r[|r| - 1])
    ensures r == [] <==> forall i :: 0 <= i < |s| ==> IsJsSpace(s[i])
    ensures exists i: nat :: CutAt(s, r, i)
  {
    var t := TrimStart(s);
    var r := TrimEnd(t);
    TrimFacts(s, t, r);
    r
  }

  /** The facts about `TrimStart` and `TrimEnd` that make up `Trim`'s
      contract, taken as plain hypotheses. */
  lemma TrimFacts(s: string, t: string, r: string)
    requires |t| <= |s| && t == s[|s| - |t|..]
    requires forall k :: 0 <= k < |s| - |t| ==> IsJsSpace(s[k])
    requires t != [] ==> !IsJsSpace(t[0])
    requires |r| <= |t| && r == t[..|r|]
    requires forall k :: |r| <= k < |t| ==> IsJsSpace(t[k])
    requires r != [] ==> !IsJsSpace(r[|r| - 1])
    ensures |r| <= |s|
    ensures r != [] ==> !IsJsSpace(r[0]) && !IsJsSpace(r[|r| - 1])
    ensures r == [] <==> forall i :: 0 <= i < |s| ==> IsJsSpace(s[i])
    ensures exists i: nat :: CutAt(s, r, i)
  {
    TrimSlice(s, t, r);
    if r == [] {
      assert t == [];
    } else {
      assert r[0] == t[0];
    }
  }

  /** `r` is the slice of `s` starting at `i`, and everything cut from
      either side of it is whitespace. */
  predicate CutAt(s: string, r: string, i: nat) {
    i + |r| <= |s| && r == s[i..i + |r|]
    && (forall k :: 0 <= k < i ==> IsJsSpace(s[k]))
    && (forall k :: i + |r| <= k < |s| ==> IsJsSpace(s[k]))
  }

  /** The trimmed text sits in `s` right after the cut leading whitespace. */
  lemma TrimSlice(s: string, t: string, r: string)
    requires |t| <= |s| && t == s[|s| - |t|..]
    requires forall k :: 0 <= k < |s| - |t| ==> IsJsSpace(s[k])
    requires |r| <= |t| && r == t[..|r|]
    requires forall k :: |r| <= k < |t| ==> IsJsSpace(t[k])
    ensures exists i: nat :: CutAt(s, r, i)
  {
    var i := |s| - |t|;
    assert r == s[i..i + |r|];
    forall k | i + |r| <= k < |s|
      ensures IsJsSpace(s[k])
    {
      assert s[k] == t[k - i];
    }
    assert CutAt(s, r, i);
  }

  /** Trimming only cuts characters outside `p` when `p` excludes
      whitespace, so the kept characters are those of the untrimmed text. */
  lemma KeepTrim(s: string, p: char -> bool)
    requires forall c :: IsJsSpace(c) ==> !p(c)
    ensures Keep(Trim(s), p) == Keep(s, p)
  {
    KeepTrimStart(s, p);
    KeepTrimEnd(TrimStart(s), p);
  }

  lemma {:induction false} KeepTrimStart(s: string, p: char -> bool)
    requires forall c :: IsJsSpace(c) ==> !p(c)
    ensures Keep(TrimStart(s), p) == Keep(s, p)
  {
    if s != [] && IsJsSpace(s[0]) {
      KeepTrimStart(s[1..], p);
    }
  }

  lemma {:induction false} KeepTrimEnd(s: string, p: char -> bool)
    requires forall c :: IsJsSpace(c) ==> !p(c)
    ensures Keep(TrimEnd(s), p) == Keep(s, p)
  {
    if s != [] && IsJsSpace(s[|s| - 1]) {
      var init := s[..|s| - 1];
      assert s == init + [s[|s| - 1]];
      KeepAppend(init, [s[|s| - 1]], p);
      assert Keep([s[|s| - 1]], p) == [];
      KeepTrimEnd(init, p);
    }
  }

  lemma {:induction false} KeepNone(s: string, p: char -> bool)
    requires forall i :: 0 <= i < |s| ==> !p(s[i])
    ensures Keep(s, p) == []
  {
    if s != [] {
      KeepNone(s[1..], p);
    }
  }

  /** Trimming twice is trimming once. */
  lemma TrimIdempotent(s: string)
    ensures Trim(Trim(s)) == Trim(s)
  {
    var r := Trim(s);
    if r != [] {
      assert TrimStart(r) == r;
      assert TrimEnd(r) == r;
    }
  }

  /** Text without whitespace at its ends is its own trim. */
  lemma TrimNoSpace(s: string)
    requires forall i :: 0 <= i < |s| ==> !IsJsSpace(s[i])
    ensures Trim(s) == s
  {
  }

  // ---------------------------------------------------------------------
  // searching and editing

  /** `lastIndexOf`: the last position of `c`, or -1. */
  function LastIndexOf(s: string, c: char): (k: int)
    ensures -1 <= k < |s|
    ensures k == -1 <==> c !in s
    ensures k >= 0 ==> s[k] == c && forall i :: k < i < |s| ==> s[i] != c
  {
    if s == [] then -1
    else if s[|s| - 1] == c then |s| - 1
    else LastIndexOf(s[..|s| - 1], c)
  }

  /** `indexOf`: the first position of `c`, or -1. */
  function IndexOf(s: string, c: char): (k: int)
    ensures -1 <= k < |s|
    ensures k == -1 <==> c !in s
    ensures k >= 0 ==> s[k] == c && forall i :: 0 <= i < k ==> s[i] != c
  {
    if s == [] then -1
    else if s[0] == c then 0
    else var k := IndexOf(s[1..], c); if k == -1 then -1 else k + 1
  }

  /** `replace(c, d)` with a string pattern: only the first occurrence. */
  function ReplaceFirst(s: string, c: char, d: char): (r: string)
    ensures |r| == |s|
    ensures c !in s ==> r == s
    ensures c in s ==> var k := IndexOf(s, c); r == s[..k] + [d] + s[k + 1..]
  {
    var k := IndexOf(s, c);
    if k == -1 then s else s[..k] + [d] + s[k + 1..]
  }

  /** The two sides of the first `c` (`split(c)` when `c` occurs once). */
  function SplitAt(s: string, c: char): (parts: (string, string))
    requires c in s
    ensures s == parts.0 + [c] + parts.1
    ensures c !in parts.0
  {
    var k := IndexOf(s, c);
    (s[..k], s[k + 1..])
  }

  /** `padStart(n, c)`. */
  function PadStart(s: string, n: nat, c: char): (r: string)
    ensures |s| >= n ==> r == s
    ensures |s| < n ==> |r| == n && r[n - |s|..] == s && forall i :: 0 <= i < n - |s| ==> r[i] == c
  {
    if |s| >= n then s else seq(n - |s|, _ => c) + s
  }

  /** `padEnd(n, c)`. */
  function PadEnd(s: string, n: nat, c: char): (r: string)
    ensures |s| >= n ==> r == s
    ensures |s| < n ==> |r| == n && r[..|s|] == s && forall i :: |s| <= i < n ==> r[i] == c
  {
    if |s| >= n then s else s + seq(n - |s|, _ => c)
  }

  /** `slice(0, n)`: at most the first n characters. */
  function Prefix(s: string, n: nat): (r: string)
    ensures |r| == if |s| < n then |s| else n
    ensures r == s[..|r|]
  {
    if |s| <= n then s else s[..n]
  }

  /** `toUpperCase` as far as it can produce ASCII capitals: a-z, and the two
      other lower-case letters whose capital is ASCII (dotless i and long s).
      Other characters are left as they are. */
  function UpperChar(c: char): (u: char)
    ensures 'a' <= c <= 'z' ==> u as int == c as int - 32
    ensures c == 'ı' ==> u == 'I'
    ensures c == 'ſ' ==> u == 'S'
    ensures !('a' <= c <= 'z') && c != 'ı' && c != 'ſ' ==> u == c
  {
    if 'a' <= c <= 'z' then (c as int - 32) as char
    else if c == 'ı' then 'I'
    else if c == 'ſ' then 'S'
    else c
  }

  function ToUpperCase(s: string): (r: string)
    ensures |r| == |s|
    ensures forall i :: 0 <= i < |s| ==> r[i] == UpperChar(s[i])
  {
    seq(|s|, i requires 0 <= i < |s| => UpperChar(s[i]))
  }
}
