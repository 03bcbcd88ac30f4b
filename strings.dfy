/** The pieces of Python's `str` that the two scripts rely on: `lower()` and
    `endswith` for the extension tests, `<` on strings and on tuples of
    strings for the date comparison, `split` with an explicit separator, and
    `int()` for the year. Strings are sequences of Unicode scalar values, so
    file names are taken to be valid Unicode (Python can also hold the lone
    surrogates `os.listdir` makes of undecodable names); only ASCII digits
    and ASCII letters are given special meaning. */
module Strings {
  import opened Wrappers

  predicate IsDigit(c: char) {
    '0' <= c <= '9'
  }

  predicate IsDigits(s: string) {
    forall i :: 0 <= i < |s| ==> IsDigit(s[i])
  }

  function DigitValue(c: char): (v: nat)
    requires IsDigit(c)
    ensures v < 10
  {
    c as int - '0' as int
  }

  function Pow10(n: nat): (p: nat)
    ensures p >= 1
  {
    if n == 0 then 1 else 10 * Pow10(n - 1)
  }

  /** The value of a run of decimal digits, most significant first. */
  function DigitsValue(s: string): nat
    requires IsDigits(s)
  {
    if |s| == 0 then 0 else DigitValue(s[0]) * Pow10(|s| - 1) + DigitsValue(s[1..])
  }

  /** A run of `n` digits is worth less than 10^n. */
  lemma {:induction false} DigitsValueBound(s: string)
    requires IsDigits(s)
    ensures DigitsValue(s) < Pow10(|s|)
  {
    if |s| > 0 {
      DigitsValueBound(s[1..]);
      var d, p := DigitValue(s[0]), Pow10(|s| - 1);
      assert d * p + DigitsValue(s[1..]) < d * p + p == (d + 1) * p;
      assert (d + 1) * p <= 10 * p by {
        assert d + 1 <= 10;
      }
    }
  }

  /** Lower-cases ASCII letters only. No character outside ASCII lower-cases
      to one of the characters of ".png", ".jpg" or ".jpeg", so the extension
      tests come out as with Python's full `lower()`. */
  function LowerChar(c: char): char {
    if 'A' <= c <= 'Z' then (c as int + 32) as char else c
  }

  function Lower(s: string): (r: string)
    ensures |r| == |s|
    ensures forall i :: 0 <= i < |s| ==> r[i] == LowerChar(s[i])
  {
    if |s| == 0 then [] else [LowerChar(s[0])] + Lower(s[1..])
  }

  predicate EndsWith(s: string, suffix: string) {
    |suffix| <= |s| && s[|s| - |suffix|..] == suffix
  }

  /** Python's `a < b` on strings: lexicographic on code points, a proper
      prefix being smaller. */
  predicate Less(a: string, b: string)
    decreases |a|
  {
    |b| > 0 && (|a| == 0 || a[0] < b[0] || (a[0] == b[0] && Less(a[1..], b[1..])))
  }

  lemma {:induction false} LessIrreflexive(a: string)
    ensures !Less(a, a)
  {
    if |a| > 0 {
      LessIrreflexive(a[1..]);
    }
  }

  lemma {:induction false} LessTransitive(a: string, b: string, c: string)
    requires Less(a, b) && Less(b, c)
    ensures Less(a, c)
  {
    if |a| > 0 && a[0] == b[0] && b[0] == c[0] {
      LessTransitive(a[1..], b[1..], c[1..]);
    }
  }

  /** `<` on strings is total: two different strings are ordered one way or
      the other. */
  lemma {:induction false} LessTotal(a: string, b: string)
    requires a != b
    ensures Less(a, b) || Less(b, a)
  {
    if |a| > 0 && |b| > 0 && a[0] == b[0] {
      assert a == [a[0]] + a[1..] && b == [b[0]] + b[1..];
      LessTotal(a[1..], b[1..]);
    }
  }

  /** A smaller leading digit makes a smaller number, whatever follows. */
  lemma LeadingDigitDecides(da: nat, db: nat, p: nat, ra: nat, rb: nat)
    requires da < db && ra < p
    ensures da * p + ra < db * p + rb
  {
    assert db * p == da * p + (db - da) * p;
    assert (db - da) * p >= p by {
      assert db - da >= 1;
    }
  }

  /** On digit runs of the same width (zero-padded numbers), string order is
      numeric order. */
  lemma {:induction false} LessDigits(a: string, b: string)
    requires IsDigits(a) && IsDigits(b) && |a| == |b|
    ensures Less(a, b) <==> DigitsValue(a) < DigitsValue(b)
  {
    if |a| > 0 {
      var p := Pow10(|a| - 1);
      var da, db := DigitValue(a[0]), DigitValue(b[0]);
      assert DigitsValue(a) == da * p + DigitsValue(a[1..]);
      assert DigitsValue(b) == db * p + DigitsValue(b[1..]);
      DigitsValueBound(a[1..]);
      DigitsValueBound(b[1..]);
      if da < db {
        LeadingDigitDecides(da, db, p, DigitsValue(a[1..]), DigitsValue(b[1..]));
      } else if db < da {
        LeadingDigitDecides(db, da, p, DigitsValue(b[1..]), DigitsValue(a[1..]));
      } else {
        LessDigits(a[1..], b[1..]);
      }
    }
  }

  /** Python's `(a1, a2, a3) > (b1, b2, b3)` on tuples of strings: the first
      unequal position decides; equal tuples are not greater. */
  predicate TupleGreater(a1: string, a2: string, a3: string, b1: string, b2: string, b3: string) {
    if a1 != b1 then Less(b1, a1)
    else if a2 != b2 then Less(b2, a2)
    else Less(b3, a3)
  }

  /** `sep.join(parts)` */
  function Join(parts: seq<string>, sep: char): string
  {
    if |parts| == 0 then ""
    else if |parts| == 1 then parts[0]
    else parts[0] + [sep] + Join(parts[1..], sep)
  }

  /** `s.split(sep)` with an explicit one-character separator: the pieces
      between separators, never an empty list. */
  function Split(s: string, sep: char): (parts: seq<string>)
    ensures |parts| >= 1
    ensures forall k :: 0 <= k < |parts| ==> sep !in parts[k]
    ensures Join(parts, sep) == s
    decreases |s|
  {
    if |s| == 0 then [""]
    else
      var rest := Split(s[1..], sep);
      if s[0] == sep then
        assert Join([""] + rest, sep) == [sep] + Join(rest, sep) by {
          assert ([""] + rest)[1..] == rest;
        }
        [""] + rest
      else
        assert Join([[s[0]] + rest[0]] + rest[1..], sep) == [s[0]] + Join(rest, sep) by {
          JoinPrepend(rest, [s[0]], sep);
        }
        [[s[0]] + rest[0]] + rest[1..]
  }

  lemma JoinPrepend(parts: seq<string>, x: string, sep: char)
    requires |parts| >= 1
    ensures Join([x + parts[0]] + parts[1..], sep) == x + Join(parts, sep)
  {
    var q := [x + parts[0]] + parts[1..];
    assert q[1..] == parts[1..];
    if |parts| > 1 {
      assert Join(q, sep) == (x + parts[0]) + [sep] + Join(parts[1..], sep);
    }
  }

  lemma JoinCons(x: string, parts: seq<string>, sep: char)
    requires |parts| >= 1
    ensures Join([x] + parts, sep) == x + [sep] + Join(parts, sep)
  {
    assert ([x] + parts)[1..] == parts;
  }

  /** `split` is the only way of cutting `s` into separator-free pieces that
      `join` back to `s`. */
  lemma {:induction false} SplitJoin(parts: seq<string>, sep: char)
    requires |parts| >= 1
    requires forall k :: 0 <= k < |parts| ==> sep !in parts[k]
    ensures Split(Join(parts, sep), sep) == parts
    decreases |Join(parts, sep)|
  {
    var s := Join(parts, sep);
    if |parts[0]| > 0 {
      var tail := [parts[0][1..]] + parts[1..];
      JoinPrepend(tail, [parts[0][0]], sep);
      assert [parts[0][0]] + parts[0][1..] == parts[0];
      assert [[parts[0][0]] + tail[0]] + tail[1..] == parts;
      assert s == [parts[0][0]] + Join(tail, sep);
      assert s[1..] == Join(tail, sep);
      assert forall k :: 0 <= k < |tail| ==> sep !in tail[k] by {
        assert forall c :: c in parts[0][1..] ==> c in parts[0];
      }
      SplitJoin(tail, sep);
      assert s[0] == parts[0][0] && s[0] != sep;
    } else if |parts| > 1 {
      JoinCons(parts[0], parts[1..], sep);
      assert parts == [parts[0]] + parts[1..];
      assert s == [sep] + Join(parts[1..], sep);
      assert s[1..] == Join(parts[1..], sep);
      SplitJoin(parts[1..], sep);
    }
  }

  /** `s.split(sep)[0]`: the text before the first separator. */
  function FirstField(s: string, sep: char): (r: string)
    ensures sep !in r
    ensures r == s || (|r| < |s| && s[|r|] == sep)
    ensures s[..|r|] == r
  {
    var parts := Split(s, sep);
    if |parts| > 1 then
      JoinCons(parts[0], parts[1..], sep);
      assert parts == [parts[0]] + parts[1..];
      assert s == parts[0] + [sep] + Join(parts[1..], sep);
      parts[0]
    else
      parts[0]
  }

  /** The text before the first separator of `x + sep + t` is `x`, when `x`
      holds no separator. */
  lemma FirstFieldOf(x: string, sep: char, t: string)
    requires sep !in x
    ensures FirstField(x + [sep] + t, sep) == x
  {
    var parts := Split(t, sep);
    JoinCons(x, parts, sep);
    SplitJoin([x] + parts, sep);
  }

  /** The literals `int()` accepts here: a non-empty run of ASCII digits,
      optionally after one `+` or `-`. */
  predicate IsIntLiteral(s: string) {
    || (|s| > 0 && IsDigits(s))
    || (|s| > 1 && (s[0] == '-' || s[0] == '+') && IsDigits(s[1..]))
  }

  /** Python's `int(s)`, restricted to an optional sign followed by ASCII
      digits: anything else raises, which is `None` here. */
  function ParseInt(s: string): (r: Option<int>)
    ensures r.Some? <==> IsIntLiteral(s)
    ensures IsDigits(s) && |s| > 0 ==> r == Some(DigitsValue(s) as int)
    ensures |s| > 1 && s[0] == '-' && IsDigits(s[1..]) ==> r == Some(-(DigitsValue(s[1..]) as int))
    ensures |s| > 1 && s[0] == '+' && IsDigits(s[1..]) ==> r == Some(DigitsValue(s[1..]) as int)
    ensures r.Some? && r.value < 0 ==> s[0] == '-'
    ensures |s| == 0 ==> r.None?
  {
    if |s| > 1 && (s[0] == '-' || s[0] == '+') && IsDigits(s[1..]) then
      Some(if s[0] == '-' then -(DigitsValue(s[1..]) as int) else DigitsValue(s[1..]))
    else if |s| > 0 && IsDigits(s) then
      Some(DigitsValue(s))
    else
      None
  }
}
