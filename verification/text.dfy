/** The string primitives the core relies on: `string.IsNullOrWhiteSpace`,
    `string.Trim`, ordinal `string.Contains`, `string.Length` in UTF-16 code
    units, and the ordinal order used to sort names. */
module Text {
  import opened Base

  /** `char.IsWhiteSpace`: the Unicode space separators, the line and
      paragraph separators, U+0009..U+000D and U+0085. */
  predicate IsWhiteSpace(c: char)
  {
    || c == ' '
    || ('\t' <= c <= '\r')
    || c == '\U{85}'
    || c == '\U{A0}'
    || c == '\U{1680}'
    || ('\U{2000}' <= c <= '\U{200A}')
    || c == '\U{2028}'
    || c == '\U{2029}'
    || c == '\U{202F}'
    || c == '\U{205F}'
    || c == '\U{3000}'
  }

  /** Every character of `s` is white space (true of the empty string). */
  predicate Blank(s: string)
  {
    forall i :: 0 <= i < |s| ==> IsWhiteSpace(s[i])
  }

  /** `string.IsNullOrWhiteSpace`. */
  predicate IsNullOrWhiteSpace(s: NString)
  {
    s.None? || Blank(s.value)
  }

  /** `string.TrimStart()`: drops the leading white space. */
  function TrimStart(s: string): (r: string)
    ensures |r| <= |s| && r == s[|s| - |r|..]
    ensures Blank(s[..|s| - |r|])
    ensures r == [] || !IsWhiteSpace(r[0])
    decreases |s|
  {
    if |s| > 0 && IsWhiteSpace(s[0]) then
      var r := TrimStart(s[1..]);
      BlankHead(s, |s| - |r|);
      r
    else s
  }

  /** `string.TrimEnd()`: drops the trailing white space. */
  function TrimEnd(s: string): (r: string)
    ensures |r| <= |s| && r == s[..|r|]
    ensures Blank(s[|r|..])
    ensures r == [] || !IsWhiteSpace(r[|r| - 1])
    decreases |s|
  {
    if |s| > 0 && IsWhiteSpace(s[|s| - 1]) then
      var r := TrimEnd(s[..|s| - 1]);
      BlankLast(s, |r|);
      r
    else s
  }

  /** `r` sits at index `i` of `s` with only white space around it. */
  predicate PaddedAt(s: string, r: string, i: int)
  {
    0 <= i <= |s| - |r| && s[i..i + |r|] == r && Blank(s[..i]) && Blank(s[i + |r|..])
  }

  /** `string.Trim()`: the infix of `s` left after removing white space at
      both ends, starting where the leading white space ends; empty exactly
      when `s` is blank. */
  function Trim(s: string): (r: string)
    ensures PaddedAt(s, r, |s| - |TrimStart(s)|)
    ensures r == [] <==> Blank(s)
    ensures r != [] ==> !IsWhiteSpace(r[0]) && !IsWhiteSpace(r[|r| - 1])
  {
    var a := TrimStart(s);
    var r := TrimEnd(a);
    TrimShape(s, a, r);
    r
  }

  /** What `Trim` promises, derived from what `TrimStart` and `TrimEnd`
      promise about their results `a` and `r`. */
  lemma TrimShape(s: string, a: string, r: string)
    requires |a| <= |s| && a == s[|s| - |a|..] && Blank(s[..|s| - |a|])
    requires a == [] || !IsWhiteSpace(a[0])
    requires |r| <= |a| && r == a[..|r|] && Blank(a[|r|..])
    requires r == [] || !IsWhiteSpace(r[|r| - 1])
    ensures PaddedAt(s, r, |s| - |a|)
    ensures r == [] <==> Blank(s)
    ensures r != [] ==> !IsWhiteSpace(r[0]) && !IsWhiteSpace(r[|r| - 1])
  {
    var i := |s| - |a|;
    assert s[i..i + |r|] == r;
    assert s[i + |r|..] == a[|r|..];
    assert PaddedAt(s, r, i);
    if r == [] {
      assert s == s[..i] + a;
      BlankConcat(s[..i], a);
    } else {
      assert r[0] == a[0] == s[i];
    }
  }

  /** Joining two blank strings gives a blank string. */
  lemma BlankConcat(p: string, q: string)
    requires Blank(p) && Blank(q)
    ensures Blank(p + q)
  {
    forall i | 0 <= i < |p + q| ensures IsWhiteSpace((p + q)[i]) {
      if i >= |p| {
        assert (p + q)[i] == q[i - |p|];
      }
    }
  }

  /** A white-space character before a blank run extends the run. */
  lemma BlankHead(s: string, k: int)
    requires 1 <= k <= |s| && IsWhiteSpace(s[0]) && Blank(s[1..][..k - 1])
    ensures Blank(s[..k])
  {
    forall i | 1 <= i < k ensures IsWhiteSpace(s[..k][i]) {
      assert s[..k][i] == s[1..][..k - 1][i - 1];
    }
  }

  /** A white-space character after a blank run extends the run. */
  lemma BlankLast(s: string, k: int)
    requires 0 <= k < |s| && IsWhiteSpace(s[|s| - 1]) && Blank(s[..|s| - 1][k..])
    ensures Blank(s[k..])
  {
    forall i | 0 <= i < |s| - 1 - k ensures IsWhiteSpace(s[k..][i]) {
      assert s[k..][i] == s[..|s| - 1][k..][i];
    }
  }

  /** A blank string minus its first or last character is still blank. */
  lemma BlankShrinks(p: string)
    requires Blank(p) && p != []
    ensures Blank(p[1..]) && Blank(p[..|p| - 1])
  {
    assert forall i :: 0 <= i < |p| - 1 ==> p[1..][i] == p[i + 1];
    assert forall i :: 0 <= i < |p| - 1 ==> p[..|p| - 1][i] == p[i];
  }

  lemma {:induction false} TrimStartPadded(p: string, s: string)
    requires Blank(p)
    ensures TrimStart(p + s) == TrimStart(s)
    decreases |p|
  {
    if p != [] {
      var x := p + s;
      assert IsWhiteSpace(x[0]) by {
        assert x[0] == p[0];
      }
      assert TrimStart(x) == TrimStart(x[1..]);
      assert x[1..] == p[1..] + s;
      BlankShrinks(p);
      TrimStartPadded(p[1..], s);
    } else {
      assert p + s == s;
    }
  }

  lemma {:induction false} TrimEndPadded(s: string, q: string)
    requires Blank(q)
    ensures TrimEnd(s + q) == TrimEnd(s)
    decreases |q|
  {
    if q != [] {
      var x := s + q;
      assert IsWhiteSpace(x[|x| - 1]) by {
        assert x[|x| - 1] == q[|q| - 1];
      }
      assert TrimEnd(x) == TrimEnd(x[..|x| - 1]);
      assert x[..|x| - 1] == s + q[..|q| - 1];
      BlankShrinks(q);
      TrimEndPadded(s, q[..|q| - 1]);
    } else {
      assert s + q == s;
    }
  }

  /** Leading white space of a non-blank string ends inside it. */
  lemma {:induction false} TrimStartAppend(s: string, q: string)
    requires !Blank(s)
    ensures TrimStart(s + q) == TrimStart(s) + q
    decreases |s|
  {
    if IsWhiteSpace(s[0]) {
      var i :| 0 <= i < |s| && !IsWhiteSpace(s[i]);
      assert s[1..][i - 1] == s[i];
      assert (s + q)[1..] == s[1..] + q;
      TrimStartAppend(s[1..], q);
    }
  }

  /** White space around a string changes neither its blankness nor its
      trimmed form. */
  lemma TrimPadded(p: string, s: string, q: string)
    requires Blank(p) && Blank(q)
    ensures Blank(p + s + q) <==> Blank(s)
    ensures Trim(p + s + q) == Trim(s)
  {
    var x := p + s + q;
    if Blank(s) {
      assert Blank(x) by {
        forall i | 0 <= i < |x| ensures IsWhiteSpace(x[i]) {
          if i < |p| {
            assert x[i] == p[i];
          } else if i < |p| + |s| {
            assert x[i] == s[i - |p|];
          } else {
            assert x[i] == q[i - |p| - |s|];
          }
        }
      }
    } else {
      var i :| 0 <= i < |s| && !IsWhiteSpace(s[i]);
      assert x[|p| + i] == s[i];
      assert x == p + (s + q);
      TrimStartPadded(p, s + q);
      TrimStartAppend(s, q);
      TrimEndPadded(TrimStart(s), q);
    }
  }

  /** A string with no white space at either end is its own trimmed form. */
  lemma TrimUnpadded(s: string)
    requires s == [] || (!IsWhiteSpace(s[0]) && !IsWhiteSpace(s[|s| - 1]))
    ensures Trim(s) == s
  {
    var r := Trim(s);
    if s != [] {
      assert !Blank(s);
      assert PaddedAt(s, r, |s| - |TrimStart(s)|);
    }
  }

  /** Trimming twice is trimming once. */
  lemma TrimIdempotent(s: string)
    ensures Trim(Trim(s)) == Trim(s)
  {
    var t := Trim(s);
    assert t == [] || (!IsWhiteSpace(t[0]) && !IsWhiteSpace(t[|t| - 1]));
    TrimUnpadded(t);
  }

  /** `t` occurs in `s` starting at index `i`. */
  predicate ContainsAt(s: string, t: string, i: int)
  {
    0 <= i && i + |t| <= |s| && s[i..i + |t|] == t
  }

  /** Ordinal `string.Contains(string)`: `t` is a contiguous infix of `s`. */
  predicate Contains(s: string, t: string)
  {
    exists i | 0 <= i <= |s| - |t| :: ContainsAt(s, t, i)
  }

  /** A string contains itself, so searching for a full field value finds
      the record that holds it. */
  lemma ContainsSelf(s: string)
    ensures Contains(s, s)
  {
    assert ContainsAt(s, s, 0);
  }

  // ------------------------------------------------------------ UTF-16

  /** The UTF-16 code units of one character: the character itself in the
      Basic Multilingual Plane, a high and a low surrogate above it. */
  function CodeUnits(c: char): (u: seq<int>)
    ensures |u| == if c as int <= 0xFFFF then 1 else 2
    ensures |u| == 1 <==> !(0xD800 <= u[0] < 0xDC00)
  {
    var n := c as int;
    if n <= 0xFFFF then [n]
    else [0xD800 + (n - 0x10000) / 0x400, 0xDC00 + (n - 0x10000) % 0x400]
  }

  /** Different characters have different code units. */
  lemma CodeUnitsInjective(c: char, d: char)
    requires CodeUnits(c) == CodeUnits(d)
    ensures c == d
  {
    var n, m := c as int, d as int;
    if n > 0xFFFF {
      assert n - 0x10000 == (n - 0x10000) / 0x400 * 0x400 + (n - 0x10000) % 0x400;
      assert m - 0x10000 == (m - 0x10000) / 0x400 * 0x400 + (m - 0x10000) % 0x400;
    }
  }

  /** The UTF-16 encoding of a string, as .NET stores it. */
  function Utf16(s: string): seq<int>
  {
    if s == [] then [] else CodeUnits(s[0]) + Utf16(s[1..])
  }

  /** The positions of the characters above U+FFFF, each of which takes a
      surrogate pair. */
  function Supplementary(s: string): set<int>
  {
    set i | 0 <= i < |s| && s[i] as int > 0xFFFF
  }

  /** `string.Length`: the number of UTF-16 code units, so a character
      above U+FFFF counts twice. */
  function Utf16Length(s: string): (n: nat)
    ensures |s| <= n
  {
    |s| + |Supplementary(s)|
  }

  /** The last character adds its own surrogate position, if any. */
  lemma SupplementaryLast(s: string)
    requires s != []
    ensures |Supplementary(s)|
         == |Supplementary(s[..|s| - 1])| + (if s[|s| - 1] as int > 0xFFFF then 1 else 0)
  {
    var t := s[..|s| - 1];
    assert Supplementary(s)
        == Supplementary(t) + (if s[|s| - 1] as int > 0xFFFF then {|t|} else {});
  }

  /** Encoding one more character appends its code units. */
  lemma {:induction false} Utf16Append(t: string, c: char)
    ensures Utf16(t + [c]) == Utf16(t) + CodeUnits(c)
  {
    if t != [] {
      assert (t + [c])[1..] == t[1..] + [c];
      Utf16Append(t[1..], c);
    }
  }

  /** `Utf16Length` is the length of the encoding, at most two units per
      character, and equals the number of characters when every character
      lies in the Basic Multilingual Plane. */
  lemma {:induction false} Utf16LengthFacts(s: string)
    ensures Utf16Length(s) == |Utf16(s)| <= 2 * |s|
    ensures (forall i :: 0 <= i < |s| ==> s[i] as int <= 0xFFFF) ==> Utf16Length(s) == |s|
    decreases |s|
  {
    if s != [] {
      var t := s[..|s| - 1];
      Utf16LengthFacts(t);
      SupplementaryLast(s);
      assert s == t + [s[|s| - 1]];
      Utf16Append(t, s[|s| - 1]);
    }
    if forall i :: 0 <= i < |s| ==> s[i] as int <= 0xFFFF {
      assert Supplementary(s) == {};
    }
  }

  /** A string of Basic Multilingual Plane characters takes one unit per
      character. */
  lemma BmpLength(s: string)
    requires forall i :: 0 <= i < |s| ==> s[i] as int <= 0xFFFF
    ensures Utf16Length(s) == |s|
  {
    assert Supplementary(s) == {};
  }

  /** Different strings have different encodings. */
  lemma {:induction false} Utf16Injective(a: string, b: string)
    requires Utf16(a) == Utf16(b)
    ensures a == b
    decreases |a|
  {
    if a != [] && b != [] {
      var ua, ub := CodeUnits(a[0]), CodeUnits(b[0]);
      assert Utf16(a) == ua + Utf16(a[1..]) && Utf16(b) == ub + Utf16(b[1..]);
      assert ua[0] == Utf16(a)[0] == ub[0];
      assert |ua| == |ub|;
      assert ua == Utf16(a)[..|ua|] == ub;
      CodeUnitsInjective(a[0], b[0]);
      assert Utf16(a[1..]) == Utf16(a)[|ua|..] == Utf16(b[1..]);
      Utf16Injective(a[1..], b[1..]);
      assert a == [a[0]] + a[1..] && b == [b[0]] + b[1..];
    }
  }

  // ------------------------------------------------------------- Order

  /** Lexicographic order on code-unit sequences (a proper prefix sorts
      first). */
  predicate UnitsLess(a: seq<int>, b: seq<int>)
    decreases |a|
  {
    |b| > 0 && (|a| == 0 || a[0] < b[0] || (a[0] == b[0] && UnitsLess(a[1..], b[1..])))
  }

  lemma {:induction false} UnitsLessIrreflexive(a: seq<int>)
    ensures !UnitsLess(a, a)
    decreases |a|
  {
    if |a| > 0 {
      UnitsLessIrreflexive(a[1..]);
    }
  }

  lemma {:induction false} UnitsLessTransitive(a: seq<int>, b: seq<int>, c: seq<int>)
    requires UnitsLess(a, b) && UnitsLess(b, c)
    ensures UnitsLess(a, c)
    decreases |a|
  {
    if |a| > 0 && a[0] == b[0] && b[0] == c[0] {
      UnitsLessTransitive(a[1..], b[1..], c[1..]);
    }
  }

  lemma {:induction false} UnitsLessTotal(a: seq<int>, b: seq<int>)
    requires a != b
    ensures UnitsLess(a, b) || UnitsLess(b, a)
    decreases |a|
  {
    if |a| > 0 && |b| > 0 && a[0] == b[0] {
      assert a == [a[0]] + a[1..] && b == [b[0]] + b[1..];
      UnitsLessTotal(a[1..], b[1..]);
    }
  }

  /** Ordinal string order, as `string.CompareOrdinal`: the UTF-16 code
      units compared one by one. A character above U+FFFF therefore sorts
      by its high surrogate, before the characters U+E000..U+FFFF. */
  predicate Less(a: string, b: string)
  {
    UnitsLess(Utf16(a), Utf16(b))
  }

  lemma LessIrreflexive(a: string)
    ensures !Less(a, a)
  {
    UnitsLessIrreflexive(Utf16(a));
  }

  lemma LessTransitive(a: string, b: string, c: string)
    requires Less(a, b) && Less(b, c)
    ensures Less(a, c)
  {
    UnitsLessTransitive(Utf16(a), Utf16(b), Utf16(c));
  }

  /** Any two different strings are ordered one way or the other. */
  lemma LessTotal(a: string, b: string)
    requires a != b
    ensures Less(a, b) || Less(b, a)
  {
    if Utf16(a) == Utf16(b) {
      Utf16Injective(a, b);
    }
    UnitsLessTotal(Utf16(a), Utf16(b));
  }

  /** The order of code units is not the order of characters: U+10000 sorts
      before U+E000. */
  lemma SupplementarySortsBeforePrivateUse()
    ensures Less("\U{10000}", "\U{E000}")
    ensures '\U{10000}' > '\U{E000}'
  {
    assert Utf16("\U{10000}") == [0xD800, 0xDC00];
    assert Utf16("\U{E000}") == [0xE000];
  }
}
