/** The CNPJ (Brazilian company tax id) format accepted at the input
    boundary: the regular expression `\d{2}\.\d{3}\.\d{3}/\d{4}-\d{2}`
    matched against the whole value, as the `[RegularExpression]` validation
    attribute does. `\d` is taken to be an ASCII digit. */
module Cnpj {
  import opened Base
  import opened Text

  predicate IsDigit(c: char)
  {
    '0' <= c <= '9'
  }

  /** One character class of a regular expression: `\d` or a literal. */
  datatype Atom = Digit | Literal(c: char)

  /** `atom{count}`. */
  datatype Piece = Piece(atom: Atom, count: nat)

  predicate AtomMatches(a: Atom, c: char)
  {
    match a
    case Digit => IsDigit(c)
    case Literal(l) => c == l
  }

  /** `\d{2}\.\d{3}\.\d{3}/\d{4}-\d{2}` */
  const CnpjPattern: seq<Piece> := [
    Piece(Digit, 2), Piece(Literal('.'), 1), Piece(Digit, 3), Piece(Literal('.'), 1),
    Piece(Digit, 3), Piece(Literal('/'), 1), Piece(Digit, 4), Piece(Literal('-'), 1),
    Piece(Digit, 2)]

  /** The whole of `s` matches the concatenation of `pattern`'s pieces. */
  predicate FullMatch(pattern: seq<Piece>, s: string)
    decreases |pattern|
  {
    if pattern == [] then s == []
    else
      var p := pattern[0];
      && p.count <= |s|
      && (forall i :: 0 <= i < p.count ==> AtomMatches(p.atom, s[i]))
      && FullMatch(pattern[1..], s[p.count..])
  }

  /** `n` copies of `a`. */
  function Repeat(a: Atom, n: nat): (r: seq<Atom>)
    ensures |r| == n && forall i :: 0 <= i < n ==> r[i] == a
  {
    if n == 0 then [] else [a] + Repeat(a, n - 1)
  }

  /** The pattern spelled out one atom per character. */
  function Expand(pattern: seq<Piece>): seq<Atom>
    decreases |pattern|
  {
    if pattern == [] then []
    else Repeat(pattern[0].atom, pattern[0].count) + Expand(pattern[1..])
  }

  /** `s` matches `atoms` character by character. */
  predicate MatchesAtoms(atoms: seq<Atom>, s: string)
  {
    |s| == |atoms| && forall i :: 0 <= i < |s| ==> AtomMatches(atoms[i], s[i])
  }

  /** Matching a concatenation of atoms is matching each part against its
      share of the string. */
  lemma MatchesAtomsAppend(a: seq<Atom>, b: seq<Atom>, s: string)
    requires |a| <= |s|
    ensures MatchesAtoms(a + b, s) <==> MatchesAtoms(a, s[..|a|]) && MatchesAtoms(b, s[|a|..])
  {
    if MatchesAtoms(a, s[..|a|]) && MatchesAtoms(b, s[|a|..]) {
      forall i | 0 <= i < |s| ensures AtomMatches((a + b)[i], s[i]) {
        if i < |a| {
          assert s[..|a|][i] == s[i];
        } else {
          assert s[|a|..][i - |a|] == s[i];
        }
      }
    }
    if MatchesAtoms(a + b, s) {
      forall i | 0 <= i < |a| ensures AtomMatches(a[i], s[..|a|][i]) {
        assert (a + b)[i] == a[i];
      }
      forall i | 0 <= i < |b| ensures AtomMatches(b[i], s[|a|..][i]) {
        assert (a + b)[|a| + i] == b[i];
      }
    }
  }

  /** A pattern of fixed-count pieces matches exactly the strings that match
      its expansion character by character. */
  lemma {:induction false} FullMatchExpanded(pattern: seq<Piece>, s: string)
    ensures FullMatch(pattern, s) <==> MatchesAtoms(Expand(pattern), s)
    decreases |pattern|
  {
    if pattern != [] {
      var p := pattern[0];
      var head := Repeat(p.atom, p.count);
      var tail := Expand(pattern[1..]);
      assert Expand(pattern) == head + tail;
      if p.count <= |s| {
        FullMatchExpanded(pattern[1..], s[p.count..]);
        MatchesAtomsAppend(head, tail, s);
        assert MatchesAtoms(head, s[..p.count]) <==> forall i :: 0 <= i < p.count ==> AtomMatches(p.atom, s[i]) by {
          assert forall i :: 0 <= i < p.count ==> s[..p.count][i] == s[i];
        }
      }
    }
  }

  /** The CNPJ layout position by position: 18 characters, '.' at indices 2
      and 6, '/' at 10, '-' at 15 and ASCII digits everywhere else. */
  predicate IsCnpjShape(s: string)
  {
    && |s| == 18
    && s[2] == '.' && s[6] == '.' && s[10] == '/' && s[15] == '-'
    && forall i :: 0 <= i < 18 && i != 2 && i != 6 && i != 10 && i != 15 ==> IsDigit(s[i])
  }

  /** The atom the CNPJ pattern expects at position `i`. */
  function CnpjAtom(i: int): Atom
  {
    if i == 2 || i == 6 then Literal('.')
    else if i == 10 then Literal('/')
    else if i == 15 then Literal('-')
    else Digit
  }

  /** Where the k-th piece of the CNPJ pattern starts. */
  function CnpjOffset(k: nat): nat
    requires k <= 9
  {
    [0, 2, 3, 6, 7, 10, 11, 15, 16, 18][k]
  }

  /** The expansion of the pattern from its k-th piece on is the tail of the
      CNPJ layout starting at that piece's offset. */
  lemma {:induction false} CnpjExpansionFrom(k: nat)
    requires k <= 9
    ensures |Expand(CnpjPattern[k..])| == 18 - CnpjOffset(k)
    ensures forall i :: 0 <= i < 18 - CnpjOffset(k) ==>
      Expand(CnpjPattern[k..])[i] == CnpjAtom(i + CnpjOffset(k))
    decreases 9 - k
  {
    var p := CnpjPattern;
    if k < 9 {
      CnpjExpansionFrom(k + 1);
      ExpandStep(p, k);
      CnpjPiece(k);
    } else {
      assert p[9..] == [];
    }
  }

  /** The k-th piece of the CNPJ pattern spans the positions from its offset
      to the next piece's offset, and its atom is the one expected there. */
  lemma CnpjPiece(k: nat)
    requires k < 9
    ensures CnpjOffset(k + 1) == CnpjOffset(k) + CnpjPattern[k].count
    ensures forall i :: CnpjOffset(k) <= i < CnpjOffset(k + 1) ==> CnpjAtom(i) == CnpjPattern[k].atom
  {
  }

  /** One step of `Expand` from any position of the pattern. */
  lemma ExpandStep(pattern: seq<Piece>, k: nat)
    requires k < |pattern|
    ensures Expand(pattern[k..]) == Repeat(pattern[k].atom, pattern[k].count) + Expand(pattern[k + 1..])
  {
    assert pattern[k..][1..] == pattern[k + 1..];
  }

  /** The regular expression accepts exactly the strings with the CNPJ
      layout. */
  lemma CnpjPatternIsShape(s: string)
    ensures FullMatch(CnpjPattern, s) <==> IsCnpjShape(s)
  {
    FullMatchExpanded(CnpjPattern, s);
    CnpjExpansion();
    if |s| == 18 {
      ShapeMatchesAtoms(Expand(CnpjPattern), s);
    }
  }

  /** The CNPJ pattern spelled out: 18 atoms, as `CnpjAtom` lists them. */
  lemma CnpjExpansion()
    ensures |Expand(CnpjPattern)| == 18
    ensures forall i :: 0 <= i < 18 ==> Expand(CnpjPattern)[i] == CnpjAtom(i)
  {
    CnpjExpansionFrom(0);
    assert CnpjPattern[0..] == CnpjPattern;
  }

  /** Against the CNPJ layout of atoms, a string of 18 characters matches
      exactly when it has the CNPJ shape. */
  lemma ShapeMatchesAtoms(e: seq<Atom>, s: string)
    requires |e| == 18 && |s| == 18
    requires forall i :: 0 <= i < 18 ==> e[i] == CnpjAtom(i)
    ensures MatchesAtoms(e, s) <==> IsCnpjShape(s)
  {
    if MatchesAtoms(e, s) {
      assert AtomMatches(e[2], s[2]) && AtomMatches(e[6], s[6]);
      assert AtomMatches(e[10], s[10]) && AtomMatches(e[15], s[15]);
      forall i | 0 <= i < 18 && i != 2 && i != 6 && i != 10 && i != 15 ensures IsDigit(s[i]) {
        assert AtomMatches(e[i], s[i]);
      }
    }
  }

  /** The example value documented on the request field is accepted. */
  lemma DocumentedExampleAccepted()
    ensures FullMatch(CnpjPattern, "12.345.678/0001-99")
    ensures Utf16Length("12.345.678/0001-99") == 18
  {
    var s := "12.345.678/0001-99";
    forall i | 0 <= i < 18 && i != 2 && i != 6 && i != 10 && i != 15 ensures IsDigit(s[i]) {
      assert i == 0 || i == 1 || i == 3 || i == 4 || i == 5 || i == 7 || i == 8 || i == 9
          || i == 11 || i == 12 || i == 13 || i == 14 || i == 16 || i == 17;
    }
    assert IsCnpjShape(s);
    CnpjPatternIsShape(s);
    ShapeLength(s);
  }

  /** `[RegularExpression]`: a null or empty value passes; any other value
      must be matched from its first to its last character. */
  predicate RegexAttributeAccepts(pattern: seq<Piece>, v: NString)
  {
    v.None? || v.value == "" || FullMatch(pattern, v.value)
  }

  /** `[Required]` on a string: null, empty and white-space-only values fail. */
  predicate RequiredAttributeAccepts(v: NString)
  {
    !IsNullOrWhiteSpace(v)
  }

  /** `[Required]` together with the CNPJ `[RegularExpression]` accept a
      value exactly when it is present and has the CNPJ layout. */
  lemma CnpjFieldAccepted(v: NString)
    ensures RequiredAttributeAccepts(v) && RegexAttributeAccepts(CnpjPattern, v)
        <==> v.Some? && IsCnpjShape(v.value)
  {
    if v.Some? {
      CnpjPatternIsShape(v.value);
      if IsCnpjShape(v.value) {
        assert !IsWhiteSpace(v.value[0]) by {
          assert IsDigit(v.value[0]);
        }
      }
    }
  }

  /** The 14 digits of a CNPJ, separators removed. */
  function CnpjDigits(s: string): (d: seq<char>)
    requires |s| == 18
    ensures |d| == 14
  {
    s[0..2] + s[3..6] + s[7..10] + s[11..15] + s[16..18]
  }

  /** Lays 14 digits out as `DD.DDD.DDD/DDDD-DD`. */
  function FormatCnpj(d: seq<char>): (s: string)
    requires |d| == 14
    ensures |s| == 18
  {
    d[0..2] + "." + d[2..5] + "." + d[5..8] + "/" + d[8..12] + "-" + d[12..14]
  }

  /** Where each digit of `d` lands in `FormatCnpj(d)`. */
  lemma FormatPositions(d: seq<char>)
    requires |d| == 14
    ensures var f := FormatCnpj(d);
      && f[2] == '.' && f[6] == '.' && f[10] == '/' && f[15] == '-'
      && f[0] == d[0] && f[1] == d[1] && f[3] == d[2] && f[4] == d[3] && f[5] == d[4] && f[7] == d[5] && f[8] == d[6] && f[9] == d[7] && f[11] == d[8] && f[12] == d[9] && f[13] == d[10] && f[14] == d[11] && f[16] == d[12] && f[17] == d[13]
  {
  }

  /** Where each character of `s` lands in `CnpjDigits(s)`. */
  lemma DigitPositions(s: string)
    requires |s| == 18
    ensures var d := CnpjDigits(s);
      d[0] == s[0] && d[1] == s[1] && d[2] == s[3] && d[3] == s[4] && d[4] == s[5] && d[5] == s[7] && d[6] == s[8] && d[7] == s[9] && d[8] == s[11] && d[9] == s[12] && d[10] == s[13] && d[11] == s[14] && d[12] == s[16] && d[13] == s[17]
  {
  }

  /** Formatting any 14 digits gives an accepted CNPJ, whose digits are the
      ones formatted. */
  lemma FormatThenDigits(d: seq<char>)
    requires |d| == 14 && forall i :: 0 <= i < 14 ==> IsDigit(d[i])
    ensures FullMatch(CnpjPattern, FormatCnpj(d))
    ensures CnpjDigits(FormatCnpj(d)) == d
  {
    var f := FormatCnpj(d);
    FormatPositions(d);
    DigitPositions(f);
    var back := CnpjDigits(f);
    forall i | 0 <= i < 14 ensures back[i] == d[i] {
      assert i == 0 || i == 1 || i == 2 || i == 3 || i == 4 || i == 5 || i == 6 || i == 7
          || i == 8 || i == 9 || i == 10 || i == 11 || i == 12 || i == 13;
    }
    forall i | 0 <= i < 18 && i != 2 && i != 6 && i != 10 && i != 15 ensures IsDigit(f[i]) {
      assert i == 0 || i == 1 || i == 3 || i == 4 || i == 5 || i == 7 || i == 8 || i == 9
          || i == 11 || i == 12 || i == 13 || i == 14 || i == 16 || i == 17;
    }
    assert IsCnpjShape(f);
    CnpjPatternIsShape(f);
  }

  /** Every accepted CNPJ is the formatting of its own digits, so accepted
      values and 14-digit strings correspond one to one. */
  lemma DigitsThenFormat(s: string)
    requires FullMatch(CnpjPattern, s)
    ensures |s| == 18
    ensures forall i :: 0 <= i < 14 ==> IsDigit(CnpjDigits(s)[i])
    ensures FormatCnpj(CnpjDigits(s)) == s
  {
    CnpjPatternIsShape(s);
    ShapeDigits(s);
    ShapeReformats(s);
  }

  /** The characters a CNPJ-shaped string keeps as digits are digits. */
  lemma ShapeDigits(s: string)
    requires IsCnpjShape(s)
    ensures forall i :: 0 <= i < 14 ==> IsDigit(CnpjDigits(s)[i])
  {
    var d := CnpjDigits(s);
    DigitPositions(s);
    forall i | 0 <= i < 14 ensures IsDigit(d[i]) {
      assert i == 0 || i == 1 || i == 2 || i == 3 || i == 4 || i == 5 || i == 6 || i == 7
          || i == 8 || i == 9 || i == 10 || i == 11 || i == 12 || i == 13;
    }
  }

  /** Re-laying out the digits of a CNPJ-shaped string restores it. */
  lemma ShapeReformats(s: string)
    requires IsCnpjShape(s)
    ensures FormatCnpj(CnpjDigits(s)) == s
  {
    var d := CnpjDigits(s);
    DigitPositions(s);
    FormatPositions(d);
    var f := FormatCnpj(d);
    forall i | 0 <= i < 18 ensures f[i] == s[i] {
      assert i == 0 || i == 1 || i == 2 || i == 3 || i == 4 || i == 5 || i == 6 || i == 7
          || i == 8 || i == 9 || i == 10 || i == 11 || i == 12 || i == 13 || i == 14
          || i == 15 || i == 16 || i == 17;
    }
  }

  /** A CNPJ-shaped value is 18 UTF-16 code units long, so every accepted
      CNPJ fits the 20-character column. */
  lemma ShapeLength(s: string)
    requires IsCnpjShape(s)
    ensures Utf16Length(s) == 18
  {
    forall i | 0 <= i < |s| ensures s[i] as int <= 0xFFFF {
      assert i == 2 || i == 6 || i == 10 || i == 15 || IsDigit(s[i]);
    }
    Utf16LengthFacts(s);
  }
}
