/** The JavaScript string primitives the two scripts rely on: `toLowerCase`,
    `includes`, `trim`, `split` and `join` with a one-character separator,
    and decimal digits. A `char` is one Unicode scalar value; every
    character the two scripts' keywords and separators use lies below
    U+FFFF, where it is also one UTF-16 code unit as in JavaScript. */
module Text {

  /*** Case ***/

  /** `toLowerCase` on one character, for the ASCII capitals and the
      Latin-1 capitals U+00C0..U+00DE (all but the multiplication sign). */
  function LowerChar(c: char): char
  {
    if 'A' <= c <= 'Z' || ('\U{00C0}' <= c <= '\U{00DE}' && c != '\U{00D7}') then
      (c as int + 32) as char
    else
      c
  }

  /** `s.toLowerCase()`: lowers each character in place. */
  function Lower(s: string): (r: string)
    ensures |r| == |s|
    ensures forall i :: 0 <= i < |s| ==> r[i] == LowerChar(s[i])
  {
    seq(|s|, i requires 0 <= i < |s| => LowerChar(s[i]))
  }

  lemma LowerAppend(s: string, t: string)
    ensures Lower(s + t) == Lower(s) + Lower(t)
  {
    assert forall i :: 0 <= i < |s + t| ==> Lower(s + t)[i] == (Lower(s) + Lower(t))[i];
  }

  /*** Substrings ***/

  /** `s.includes(t)`: `t` is a prefix of some suffix of `s`. */
  predicate Contains(s: string, t: string)
    decreases |s|
  {
    t <= s || (|s| > 0 && Contains(s[1..], t))
  }

  /** `t` occurs in `s` at offset `i`. */
  predicate OccursAt(s: string, t: string, i: int)
  {
    0 <= i && i + |t| <= |s| && s[i..i + |t|] == t
  }

  /** Every occurrence makes `Contains` true. */
  lemma {:induction false} OccursContains(s: string, t: string, i: int)
    requires OccursAt(s, t, i)
    ensures Contains(s, t)
    decreases i
  {
    if i == 0 {
      assert s[..|t|] == t;
    } else {
      assert s[1..][i - 1..i - 1 + |t|] == s[i..i + |t|];
      OccursContains(s[1..], t, i - 1);
    }
  }

  /** `Contains` always has an offset witnessing it. */
  lemma {:induction false} ContainsWitness(s: string, t: string) returns (i: int)
    requires Contains(s, t)
    ensures OccursAt(s, t, i)
    decreases |s|
  {
    if t <= s {
      i := 0;
    } else {
      var j := ContainsWitness(s[1..], t);
      assert s[1..][j..j + |t|] == s[j + 1..j + 1 + |t|];
      i := j + 1;
    }
  }

  /** The recursive `Contains` agrees with the offset-based definition. */
  lemma ContainsIffOccurs(s: string, t: string)
    ensures Contains(s, t) <==> exists i :: OccursAt(s, t, i)
  {
    if Contains(s, t) {
      var i := ContainsWitness(s, t);
    }
    if exists i :: OccursAt(s, t, i) {
      var i :| OccursAt(s, t, i);
      OccursContains(s, t, i);
    }
  }

  /** Being a substring is transitive. */
  lemma ContainsTransitive(s: string, t: string, u: string)
    requires Contains(s, t) && Contains(t, u)
    ensures Contains(s, u)
  {
    var i := ContainsWitness(s, t);
    var j := ContainsWitness(t, u);
    forall k | 0 <= k < |u|
      ensures s[i + j + k] == u[k]
    {
      assert s[i..i + |t|][j + k] == t[j + k];
    }
    assert s[i + j..i + j + |u|] == u;
    OccursContains(s, u, i + j);
  }

  /** Text added on either side keeps every substring. */
  lemma ContainsExtend(s: string, t: string, before: string, after: string)
    requires Contains(s, t)
    ensures Contains(before + s + after, t)
  {
    var i := ContainsWitness(s, t);
    var w := before + s + after;
    assert w[|before| + i..|before| + i + |t|] == s[i..i + |t|];
    OccursContains(w, t, |before| + i);
  }

  /*** White space ***/

  /** The characters JavaScript's `trim` and the regular-expression class
      `\s` treat as white space: WhiteSpace and LineTerminator of
      ECMAScript (section 12.2 and 12.3 of ECMA-262). */
  predicate IsSpace(c: char)
  {
    || c == '\t' || c == '\n' || c == '\U{000B}' || c == '\U{000C}' || c == '\r' || c == ' '
    || c == '\U{00A0}' || c == '\U{1680}' || ('\U{2000}' <= c <= '\U{200A}')
    || c == '\U{2028}' || c == '\U{2029}' || c == '\U{202F}' || c == '\U{205F}'
    || c == '\U{3000}' || c == '\U{FEFF}'
  }

  predicate AllSpace(s: string)
  {
    forall i :: 0 <= i < |s| ==> IsSpace(s[i])
  }

  function TrimStart(s: string): string
  {
    if |s| > 0 && IsSpace(s[0]) then TrimStart(s[1..]) else s
  }

  function TrimEnd(s: string): string
  {
    if |s| > 0 && IsSpace(s[|s| - 1]) then TrimEnd(s[..|s| - 1]) else s
  }

  /** `s.trim()` */
  function Trim(s: string): string
  {
    TrimEnd(TrimStart(s))
  }

  lemma {:induction false} TrimStartEmpty(s: string)
    ensures TrimStart(s) == [] <==> AllSpace(s)
    ensures TrimStart(s) != [] ==> !IsSpace(TrimStart(s)[0])
    decreases |s|
  {
    if |s| > 0 && IsSpace(s[0]) {
      TrimStartEmpty(s[1..]);
      assert AllSpace(s) <==> AllSpace(s[1..]) by {
        if AllSpace(s[1..]) {
          forall i | 0 <= i < |s| ensures IsSpace(s[i]) {
            if i > 0 { assert s[i] == s[1..][i - 1]; }
          }
        }
      }
    }
  }

  lemma {:induction false} TrimEndEmpty(s: string)
    requires s == [] || !IsSpace(s[0])
    ensures TrimEnd(s) == [] <==> s == []
    decreases |s|
  {
    if |s| > 0 && IsSpace(s[|s| - 1]) {
      TrimEndEmpty(s[..|s| - 1]);
    }
  }

  /** `s.trim()` is falsy exactly when every character of `s` is white space. */
  lemma TrimEmptyIffAllSpace(s: string)
    ensures Trim(s) == [] <==> AllSpace(s)
  {
    TrimStartEmpty(s);
    TrimEndEmpty(TrimStart(s));
  }

  /*** Splitting and joining on one character ***/

  function CountChar(s: string, c: char): nat
  {
    if |s| == 0 then 0 else (if s[0] == c then 1 else 0) + CountChar(s[1..], c)
  }

  /** `s.split(sep)` for a one-character separator: the maximal pieces
      between separators, one more piece than there are separators, so the
      empty string splits into one empty piece. */
  function Split(s: string, sep: char): (parts: seq<string>)
    ensures |parts| == CountChar(s, sep) + 1
    ensures forall k :: 0 <= k < |parts| ==> sep !in parts[k]
    decreases |s|
  {
    if |s| == 0 then
      [""]
    else
      var rest := Split(s[1..], sep);
      if s[0] == sep then [""] + rest else [[s[0]] + rest[0]] + rest[1..]
  }

  /** `parts.join(sep)`; an empty array joins to the empty string. */
  function Join(parts: seq<string>, sep: char): string
  {
    if |parts| == 0 then ""
    else if |parts| == 1 then parts[0]
    else parts[0] + [sep] + Join(parts[1..], sep)
  }

  /** Pieces each followed by the separator, as repeated
      `appendFileSync(path, piece + '\n')` leave a file. */
  function Terminated(parts: seq<string>, sep: char): string
  {
    if |parts| == 0 then "" else parts[0] + [sep] + Terminated(parts[1..], sep)
  }

  predicate NoSep(parts: seq<string>, sep: char)
  {
    forall k :: 0 <= k < |parts| ==> sep !in parts[k]
  }

  lemma {:induction false} SplitWithoutSep(p: string, sep: char)
    requires sep !in p
    ensures Split(p, sep) == [p]
    decreases |p|
  {
    if |p| > 0 {
      SplitWithoutSep(p[1..], sep);
      assert [p[0]] + p[1..] == p;
    }
  }

  /** A separator cuts the split into the splits of both sides. */
  lemma {:induction false} SplitAround(a: string, b: string, sep: char)
    ensures Split(a + [sep] + b, sep) == Split(a, sep) + Split(b, sep)
    decreases |a|
  {
    if |a| == 0 {
      assert a + [sep] + b == [sep] + b;
      assert ([sep] + b)[1..] == b;
    } else {
      var w := a + [sep] + b;
      assert w[0] == a[0];
      assert w[1..] == a[1..] + [sep] + b;
      SplitAround(a[1..], b, sep);
    }
  }

  /** `join` then `split` gives back the pieces, provided there is at least
      one and none contains the separator. */
  lemma {:induction false} SplitJoin(parts: seq<string>, sep: char)
    requires |parts| >= 1 && NoSep(parts, sep)
    ensures Split(Join(parts, sep), sep) == parts
    decreases |parts|
  {
    if |parts| == 1 {
      SplitWithoutSep(parts[0], sep);
    } else {
      SplitAround(parts[0], Join(parts[1..], sep), sep);
      SplitWithoutSep(parts[0], sep);
      SplitJoin(parts[1..], sep);
      assert [parts[0]] + parts[1..] == parts;
    }
  }

  lemma {:induction false} JoinConsHead(c: char, parts: seq<string>, sep: char)
    requires |parts| >= 1
    ensures Join([[c] + parts[0]] + parts[1..], sep) == [c] + Join(parts, sep)
  {
    var q := [[c] + parts[0]] + parts[1..];
    if |parts| > 1 {
      assert q[1..] == parts[1..];
    }
  }

  /** `split` then `join` gives back the string. */
  lemma {:induction false} JoinSplit(s: string, sep: char)
    ensures Join(Split(s, sep), sep) == s
    decreases |s|
  {
    if |s| > 0 {
      var rest := Split(s[1..], sep);
      JoinSplit(s[1..], sep);
      if s[0] == sep {
        assert ([""] + rest)[1..] == rest;
        assert [s[0]] + s[1..] == s;
      } else {
        JoinConsHead(s[0], rest, sep);
        assert [s[0]] + s[1..] == s;
      }
    }
  }

  /** A file of separator-terminated pieces splits into the pieces and one
      trailing empty piece. */
  lemma {:induction false} SplitTerminated(parts: seq<string>, sep: char)
    requires NoSep(parts, sep)
    ensures Split(Terminated(parts, sep), sep) == parts + [""]
    decreases |parts|
  {
    if |parts| > 0 {
      var t := Terminated(parts[1..], sep);
      assert Terminated(parts, sep) == parts[0] + [sep] + t;
      assert NoSep(parts[1..], sep) by {
        forall k | 0 <= k < |parts[1..]| ensures sep !in parts[1..][k] {
          assert parts[1..][k] == parts[k + 1];
        }
      }
      SplitTerminated(parts[1..], sep);
      SplitAround(parts[0], t, sep);
      assert sep !in parts[0];
      SplitWithoutSep(parts[0], sep);
      assert Split(Terminated(parts, sep), sep) == [parts[0]] + (parts[1..] + [""]);
      assert [parts[0]] + (parts[1..] + [""]) == parts + [""];
    }
  }

  /*** Filters ***/

  /** `parts.filter(l => l)`: drops the empty pieces. */
  function NonEmpty(parts: seq<string>): (r: seq<string>)
    ensures forall k :: 0 <= k < |r| ==> r[k] != []
  {
    if |parts| == 0 then []
    else (if parts[0] == [] then [] else [parts[0]]) + NonEmpty(parts[1..])
  }

  /** `parts.filter(l => l.trim())`: drops the pieces that are all white space. */
  function NonBlank(parts: seq<string>): (r: seq<string>)
    ensures forall k :: 0 <= k < |r| ==> Trim(r[k]) != []
  {
    if |parts| == 0 then []
    else (if Trim(parts[0]) == [] then [] else [parts[0]]) + NonBlank(parts[1..])
  }

  lemma {:induction false} NonEmptyAppend(a: seq<string>, b: seq<string>)
    ensures NonEmpty(a + b) == NonEmpty(a) + NonEmpty(b)
    decreases |a|
  {
    if |a| == 0 {
      assert a + b == b;
    } else {
      assert (a + b)[1..] == a[1..] + b;
      NonEmptyAppend(a[1..], b);
    }
  }

  /** One piece survives `filter(l => l)` exactly when it is not empty. */
  lemma NonEmptyOne(p: string)
    ensures NonEmpty([p]) == if p == [] then [] else [p]
  {
    assert [p][1..] == [];
  }

  /** The trim filter works piece by piece and keeps the order. */
  lemma {:induction false} NonBlankAppend(a: seq<string>, b: seq<string>)
    ensures NonBlank(a + b) == NonBlank(a) + NonBlank(b)
    decreases |a|
  {
    if |a| == 0 {
      assert a + b == b;
    } else {
      assert (a + b)[1..] == a[1..] + b;
      NonBlankAppend(a[1..], b);
    }
  }

  /** One piece survives `filter(l => l.trim())` exactly when it is not all
      white space. */
  lemma NonBlankOne(p: string)
    ensures NonBlank([p]) == if AllSpace(p) then [] else [p]
  {
    TrimEmptyIffAllSpace(p);
    assert [p][1..] == [];
  }

  lemma {:induction false} NonEmptyKeepsAll(parts: seq<string>)
    requires forall k :: 0 <= k < |parts| ==> parts[k] != []
    ensures NonEmpty(parts) == parts
    decreases |parts|
  {
    if |parts| > 0 {
      NonEmptyKeepsAll(parts[1..]);
      assert [parts[0]] + parts[1..] == parts;
    }
  }

  lemma {:induction false} NonBlankKeepsAll(parts: seq<string>)
    requires forall k :: 0 <= k < |parts| ==> !AllSpace(parts[k])
    ensures NonBlank(parts) == parts
    decreases |parts|
  {
    if |parts| > 0 {
      TrimEmptyIffAllSpace(parts[0]);
      NonBlankKeepsAll(parts[1..]);
      assert [parts[0]] + parts[1..] == parts;
    }
  }

  /** When no non-empty piece is all white space, dropping blank pieces
      and dropping empty pieces agree. */
  lemma {:induction false} NonBlankIsNonEmpty(parts: seq<string>)
    requires forall k :: 0 <= k < |NonEmpty(parts)| ==> !AllSpace(NonEmpty(parts)[k])
    ensures NonBlank(parts) == NonEmpty(parts)
    decreases |parts|
  {
    if |parts| > 0 {
      if parts[0] == [] {
        assert Trim(parts[0]) == [];
        assert NonEmpty(parts) == NonEmpty(parts[1..]);
        NonBlankIsNonEmpty(parts[1..]);
      } else {
        assert NonEmpty(parts)[0] == parts[0];
        TrimEmptyIffAllSpace(parts[0]);
        assert NonEmpty(parts)[1..] == NonEmpty(parts[1..]);
        NonBlankIsNonEmpty(parts[1..]);
      }
    }
  }

  lemma {:induction false} SplitOfSpace(s: string, sep: char)
    requires AllSpace(s)
    ensures forall k :: 0 <= k < |Split(s, sep)| ==> AllSpace(Split(s, sep)[k])
    decreases |s|
  {
    if |s| > 0 {
      assert AllSpace(s[1..]) by {
        forall i | 0 <= i < |s[1..]| ensures IsSpace(s[1..][i]) {
          assert s[1..][i] == s[i + 1];
        }
      }
      SplitOfSpace(s[1..], sep);
      var rest := Split(s[1..], sep);
      if s[0] != sep {
        assert AllSpace([s[0]] + rest[0]) by {
          forall i | 0 <= i < |[s[0]] + rest[0]| ensures IsSpace(([s[0]] + rest[0])[i]) {
            if i > 0 { assert ([s[0]] + rest[0])[i] == rest[0][i - 1]; }
          }
        }
      }
    }
  }

  lemma {:induction false} NonBlankOfSpaces(parts: seq<string>)
    requires forall k :: 0 <= k < |parts| ==> AllSpace(parts[k])
    ensures NonBlank(parts) == []
    decreases |parts|
  {
    if |parts| > 0 {
      TrimEmptyIffAllSpace(parts[0]);
      NonBlankOfSpaces(parts[1..]);
    }
  }

  /** A text of white space only has no non-blank line. */
  lemma NonBlankLinesOfSpace(s: string, sep: char)
    requires AllSpace(s)
    ensures NonBlank(Split(s, sep)) == []
  {
    SplitOfSpace(s, sep);
    NonBlankOfSpaces(Split(s, sep));
  }

  /*** Decimal digits ***/

  /** `\d` in a JavaScript regular expression: ASCII digits only. */
  predicate IsDigit(c: char)
  {
    '0' <= c <= '9'
  }

  predicate AllDigits(s: string)
  {
    forall i :: 0 <= i < |s| ==> IsDigit(s[i])
  }

  /** `parseInt(ds)` of a string of digits: its decimal value, leading
      zeros included. */
  function DecimalValue(ds: string): nat
    requires AllDigits(ds)
  {
    if |ds| == 0 then 0
    else 10 * DecimalValue(ds[..|ds| - 1]) + (ds[|ds| - 1] as int - '0' as int)
  }

  function DigitChar(d: nat): (c: char)
    requires d < 10
    ensures IsDigit(c)
  {
    ('0' as int + d) as char
  }

  /** A natural number printed in decimal, as a template literal prints an
      integer: no sign, no leading zero. */
  function DecimalString(n: nat): (s: string)
    ensures |s| >= 1 && AllDigits(s)
    ensures |s| > 1 ==> s[0] != '0'
  {
    if n < 10 then [DigitChar(n)] else DecimalString(n / 10) + [DigitChar(n % 10)]
  }

  /** Printing then parsing a number gives it back. */
  lemma {:induction false} DecimalRoundTrip(n: nat)
    ensures DecimalValue(DecimalString(n)) == n
  {
    if n >= 10 {
      var s := DecimalString(n);
      assert s[..|s| - 1] == DecimalString(n / 10);
      DecimalRoundTrip(n / 10);
    }
  }
}
