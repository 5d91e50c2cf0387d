/** The JavaScript string primitives the dashboard relies on, over `string`
    (`seq<char>`): `String.prototype.trim`, `split` on one separator character,
    and its inverse `join`; the `map(trim).filter(nonEmpty)` chain both the form
    and the route apply to lists of numbers; and decimal printing of a number. */
module JsString {

  /** ECMAScript WhiteSpace and LineTerminator code points: what `trim` removes. */
  const Whitespace: set<char> := {
    '\t', '\n', '\U{B}', '\U{C}', '\r', ' ', '\U{A0}', '\U{1680}',
    '\U{2000}', '\U{2001}', '\U{2002}', '\U{2003}', '\U{2004}', '\U{2005}',
    '\U{2006}', '\U{2007}', '\U{2008}', '\U{2009}', '\U{200A}',
    '\U{2028}', '\U{2029}', '\U{202F}', '\U{205F}', '\U{3000}', '\U{FEFF}'
  }

  predicate IsWhitespace(c: char)
  {
    c in Whitespace
  }

  predicate AllWhitespace(s: string)
  {
    forall k :: 0 <= k < |s| ==> IsWhitespace(s[k])
  }

  /** No whitespace at either end. */
  predicate IsTrimmed(s: string)
  {
    s == [] || (!IsWhitespace(s[0]) && !IsWhitespace(s[|s| - 1]))
  }

  /** What survives `trim` and the `length > 0` filter: non-empty, nothing to strip. */
  predicate IsCleanEntry(s: string)
  {
    s != [] && IsTrimmed(s)
  }

  /** `s.trim()`: strips whitespace from both ends, leaving the inner slice of
      `s` that starts and ends with a non-whitespace character. */
  function Trim(s: string): (r: string)
    ensures IsTrimmed(r)
    ensures r == [] <==> AllWhitespace(s)
    ensures IsTrimmed(s) ==> r == s
    decreases |s|
  {
    if s != [] && IsWhitespace(s[0]) then
      assert s == [s[0]] + s[1..];
      AllWhitespaceConcat([s[0]], s[1..]);
      Trim(s[1..])
    else if s != [] && IsWhitespace(s[|s| - 1]) then
      assert s == s[..|s| - 1] + [s[|s| - 1]];
      AllWhitespaceConcat(s[..|s| - 1], [s[|s| - 1]]);
      Trim(s[..|s| - 1])
    else
      s
  }

  /** `r` sits at offset `i` of `s` with nothing but whitespace around it. */
  predicate InnerSliceAt(s: string, r: string, i: int)
  {
    0 <= i && i + |r| <= |s| && r == s[i..i + |r|]
    && AllWhitespace(s[..i]) && AllWhitespace(s[i + |r|..])
  }

  /** What `trim` removes is whitespace and only whitespace: its result is a
      slice of `s` with nothing but whitespace on either side. */
  lemma {:induction false} TrimIsInnerSlice(s: string)
    ensures exists i :: InnerSliceAt(s, Trim(s), i)
    decreases |s|
  {
    var r := Trim(s);
    if s != [] && IsWhitespace(s[0]) {
      TrimIsInnerSlice(s[1..]);
      var i :| InnerSliceAt(s[1..], r, i);
      InnerSliceAfterHead(s, r, i);
    } else if s != [] && IsWhitespace(s[|s| - 1]) {
      TrimIsInnerSlice(s[..|s| - 1]);
      var i :| InnerSliceAt(s[..|s| - 1], r, i);
      InnerSliceBeforeTail(s, r, i);
    } else {
      assert s[0..0 + |s|] == s;
      assert InnerSliceAt(s, r, 0);
    }
  }

  lemma InnerSliceAfterHead(s: string, r: string, i: int)
    requires s != [] && IsWhitespace(s[0])
    requires InnerSliceAt(s[1..], r, i)
    ensures InnerSliceAt(s, r, i + 1)
  {
    var t := s[1..];
    assert s[..i + 1] == [s[0]] + t[..i];
    AllWhitespaceConcat([s[0]], t[..i]);
    assert s[i + 1..i + 1 + |r|] == t[i..i + |r|];
    assert s[i + 1 + |r|..] == t[i + |r|..];
  }

  lemma InnerSliceBeforeTail(s: string, r: string, i: int)
    requires s != [] && IsWhitespace(s[|s| - 1])
    requires InnerSliceAt(s[..|s| - 1], r, i)
    ensures InnerSliceAt(s, r, i)
  {
    var t := s[..|s| - 1];
    assert s[..i] == t[..i];
    assert s[i..i + |r|] == t[i..i + |r|];
    assert s[i + |r|..] == t[i + |r|..] + [s[|s| - 1]];
    AllWhitespaceConcat(t[i + |r|..], [s[|s| - 1]]);
  }

  /** `parts.join(sep)`. */
  function Join(parts: seq<string>, sep: char): string
  {
    if parts == [] then []
    else if |parts| == 1 then parts[0]
    else parts[0] + [sep] + Join(parts[1..], sep)
  }

  /** `s.split(sep)` for a one-character separator: never empty, no part holds
      the separator, and joining the parts back gives `s`. */
  function Split(s: string, sep: char): (parts: seq<string>)
    ensures |parts| >= 1
    ensures forall k :: 0 <= k < |parts| ==> sep !in parts[k]
    ensures Join(parts, sep) == s
  {
    if s == [] then [[]]
    else
      var rest := Split(s[1..], sep);
      if s[0] == sep then
        assert [s[0]] + s[1..] == s;
        [[]] + rest
      else
        JoinConsHead(s[0], rest, sep);
        assert [s[0]] + s[1..] == s;
        [[s[0]] + rest[0]] + rest[1..]
  }

  lemma JoinConsHead(c: char, parts: seq<string>, sep: char)
    requires parts != []
    ensures Join([[c] + parts[0]] + parts[1..], sep) == [c] + Join(parts, sep)
  {
    var joined := [[c] + parts[0]] + parts[1..];
    assert joined[1..] == parts[1..];
  }

  /** A part of a separator-free string is the string itself. */
  lemma {:induction false} SplitWithoutSep(p: string, sep: char)
    requires sep !in p
    ensures Split(p, sep) == [p]
  {
    if p != [] {
      SplitWithoutSep(p[1..], sep);
      assert [p[0]] + p[1..] == p;
    }
  }

  /** Splitting `p + sep + t` with a separator-free `p` yields `p` followed by the parts of `t`. */
  lemma {:induction false} SplitAtFirstSep(p: string, t: string, sep: char)
    requires sep !in p
    ensures Split(p + [sep] + t, sep) == [p] + Split(t, sep)
  {
    if p == [] {
      assert p + [sep] + t == [sep] + t;
      SplitConsSep(t, sep);
    } else {
      SplitAtFirstSep(p[1..], t, sep);
      assert p + [sep] + t == [p[0]] + (p[1..] + [sep] + t);
      SplitConsOther(p[0], p[1..] + [sep] + t, sep);
      assert [p[0]] + p[1..] == p;
    }
  }

  lemma SplitConsSep(t: string, sep: char)
    ensures Split([sep] + t, sep) == [[]] + Split(t, sep)
  {
    assert ([sep] + t)[1..] == t;
  }

  lemma SplitConsOther(c: char, t: string, sep: char)
    requires c != sep
    ensures Split([c] + t, sep) == [[c] + Split(t, sep)[0]] + Split(t, sep)[1..]
  {
    assert ([c] + t)[1..] == t;
  }

  /** `split` undoes `join` whenever no part holds the separator. */
  lemma {:induction false} SplitJoin(parts: seq<string>, sep: char)
    requires |parts| >= 1
    requires forall k :: 0 <= k < |parts| ==> sep !in parts[k]
    ensures Split(Join(parts, sep), sep) == parts
  {
    if |parts| == 1 {
      SplitWithoutSep(parts[0], sep);
    } else {
      SplitJoin(parts[1..], sep);
      SplitAtFirstSep(parts[0], Join(parts[1..], sep), sep);
      assert [parts[0]] + parts[1..] == parts;
    }
  }

  lemma AllWhitespaceConcat(a: string, b: string)
    ensures AllWhitespace(a + b) <==> AllWhitespace(a) && AllWhitespace(b)
  {
    if AllWhitespace(a) && AllWhitespace(b) {
      forall k | 0 <= k < |a + b| ensures IsWhitespace((a + b)[k]) {
        if k >= |a| {
          assert (a + b)[k] == b[k - |a|];
        }
      }
    }
    if AllWhitespace(a + b) {
      forall k | 0 <= k < |a| ensures IsWhitespace(a[k]) {
        assert a[k] == (a + b)[k];
      }
      forall k | 0 <= k < |b| ensures IsWhitespace(b[k]) {
        assert b[k] == (a + b)[|a| + k];
      }
    }
  }

  /** With a whitespace separator, a joined string is all whitespace exactly
      when every part is. */
  lemma {:induction false} JoinAllWhitespace(parts: seq<string>, sep: char)
    requires IsWhitespace(sep)
    ensures AllWhitespace(Join(parts, sep)) <==> forall k :: 0 <= k < |parts| ==> AllWhitespace(parts[k])
  {
    if |parts| == 1 {
    } else if |parts| > 1 {
      JoinAllWhitespace(parts[1..], sep);
      AllWhitespaceConcat(parts[0] + [sep], Join(parts[1..], sep));
      AllWhitespaceConcat(parts[0], [sep]);
      if forall k :: 0 <= k < |parts[1..]| ==> AllWhitespace(parts[1..][k]) {
        if AllWhitespace(parts[0]) {
          forall k | 0 <= k < |parts| ensures AllWhitespace(parts[k]) {
            if k > 0 { assert parts[k] == parts[1..][k - 1]; }
          }
        }
      } else {
        var k :| 0 <= k < |parts[1..]| && !AllWhitespace(parts[1..][k]);
        assert parts[k + 1] == parts[1..][k];
      }
    }
  }

  /** The entries one line contributes to `map(trim).filter(n => n.length > 0)`. */
  function Kept(line: string): seq<string>
  {
    if Trim(line) == [] then [] else [Trim(line)]
  }

  /** `lines.map(n => n.trim()).filter(n => n.length > 0)`: no more entries than lines. */
  function TrimAndDropBlank(lines: seq<string>): (r: seq<string>)
    ensures |r| <= |lines|
  {
    if lines == [] then [] else Kept(lines[0]) + TrimAndDropBlank(lines[1..])
  }

  /** Every entry the chain yields is non-empty and trimmed. */
  lemma {:induction false} TrimAndDropBlankClean(lines: seq<string>)
    ensures forall k :: 0 <= k < |TrimAndDropBlank(lines)| ==> IsCleanEntry(TrimAndDropBlank(lines)[k])
  {
    if lines != [] {
      TrimAndDropBlankClean(lines[1..]);
    }
  }

  /** The chain works line by line and keeps the order: it distributes over concatenation. */
  lemma {:induction false} TrimAndDropBlankAppend(a: seq<string>, b: seq<string>)
    ensures TrimAndDropBlank(a + b) == TrimAndDropBlank(a) + TrimAndDropBlank(b)
  {
    if a != [] {
      calc {
        TrimAndDropBlank(a + b);
      == { assert (a + b)[0] == a[0]; assert (a + b)[1..] == a[1..] + b; }
        Kept(a[0]) + TrimAndDropBlank(a[1..] + b);
      == { TrimAndDropBlankAppend(a[1..], b); }
        Kept(a[0]) + (TrimAndDropBlank(a[1..]) + TrimAndDropBlank(b));
      }
    } else {
      assert a + b == b;
    }
  }

  /** Appending one line appends what that line keeps. */
  lemma TrimAndDropBlankSnoc(a: seq<string>, line: string)
    ensures TrimAndDropBlank(a + [line]) == TrimAndDropBlank(a) + Kept(line)
  {
    TrimAndDropBlankAppend(a, [line]);
    assert [line][1..] == [];
  }

  /** A list of clean entries passes through the chain unchanged. */
  lemma {:induction false} TrimAndDropBlankOfClean(lines: seq<string>)
    requires forall k :: 0 <= k < |lines| ==> IsCleanEntry(lines[k])
    ensures TrimAndDropBlank(lines) == lines
  {
    if lines != [] {
      TrimAndDropBlankOfClean(lines[1..]);
      assert [lines[0]] + lines[1..] == lines;
    }
  }

  /** Applying the chain twice is applying it once. */
  lemma TrimAndDropBlankIdempotent(lines: seq<string>)
    ensures TrimAndDropBlank(TrimAndDropBlank(lines)) == TrimAndDropBlank(lines)
  {
    TrimAndDropBlankClean(lines);
    TrimAndDropBlankOfClean(TrimAndDropBlank(lines));
  }

  /** The chain yields nothing exactly when every line is all whitespace. */
  lemma {:induction false} TrimAndDropBlankEmpty(lines: seq<string>)
    ensures TrimAndDropBlank(lines) == [] <==> forall k :: 0 <= k < |lines| ==> AllWhitespace(lines[k])
  {
    if lines != [] {
      TrimAndDropBlankEmpty(lines[1..]);
      if forall k :: 0 <= k < |lines[1..]| ==> AllWhitespace(lines[1..][k]) {
        if AllWhitespace(lines[0]) {
          forall k | 0 <= k < |lines| ensures AllWhitespace(lines[k]) {
            if k > 0 { assert lines[k] == lines[1..][k - 1]; }
          }
        }
      } else {
        var k :| 0 <= k < |lines[1..]| && !AllWhitespace(lines[1..][k]);
        assert lines[k + 1] == lines[1..][k];
      }
    }
  }

  /** A character no line holds is in no entry the chain yields. */
  lemma {:induction false} TrimAndDropBlankAvoids(lines: seq<string>, c: char)
    requires forall k :: 0 <= k < |lines| ==> c !in lines[k]
    ensures forall k :: 0 <= k < |TrimAndDropBlank(lines)| ==> c !in TrimAndDropBlank(lines)[k]
  {
    if lines != [] {
      TrimAndDropBlankAvoids(lines[1..], c);
      assert c !in lines[0];
      TrimIsInnerSlice(lines[0]);
      assert forall k :: 0 <= k < |Kept(lines[0])| ==> c !in Kept(lines[0])[k];
    }
  }

  /** The digit character for `d`. */
  function DigitChar(d: nat): (c: char)
    requires d < 10
    ensures '0' <= c <= '9' && (c as int) - ('0' as int) == d
  {
    (('0' as int) + d) as char
  }

  predicate IsDigits(s: string)
  {
    forall k :: 0 <= k < |s| ==> '0' <= s[k] <= '9'
  }

  /** A numeral as JavaScript prints a non-negative integer: digits only, and
      no leading zero unless the numeral is `0` itself. */
  predicate IsCanonicalDecimal(s: string)
  {
    s != [] && IsDigits(s) && (|s| == 1 || s[0] != '0')
  }

  /** Template-literal interpolation `${n}` of a non-negative integer. */
  function DecimalString(n: nat): (s: string)
    ensures IsCanonicalDecimal(s)
    ensures n > 0 ==> s[0] != '0'
  {
    if n < 10 then [DigitChar(n)]
    else
      var prefix := DecimalString(n / 10);
      assert (prefix + [DigitChar(n % 10)])[0] == prefix[0];
      prefix + [DigitChar(n % 10)]
  }

  /** Reads a decimal numeral back: the partner of `DecimalString`. */
  function ParseDecimal(s: string): nat
    requires IsDigits(s)
  {
    if s == [] then 0
    else ParseDecimal(s[..|s| - 1]) * 10 + ((s[|s| - 1] as int) - ('0' as int))
  }

  lemma {:induction false} DecimalRoundTrip(n: nat)
    ensures ParseDecimal(DecimalString(n)) == n
  {
    if n >= 10 {
      DecimalRoundTrip(n / 10);
      var s := DecimalString(n);
      assert s[..|s| - 1] == DecimalString(n / 10);
    }
  }

  /** A canonical numeral is the printed form of its value: printing is
      injective on canonical numerals, so the value fixes the text. */
  lemma {:induction false} CanonicalDecimalUnique(s: string)
    requires IsCanonicalDecimal(s)
    ensures DecimalString(ParseDecimal(s)) == s
    decreases |s|
  {
    var last := s[|s| - 1];
    var d := (last as int) - ('0' as int);
    if |s| == 1 {
      assert s[..0] == [];
      assert DigitChar(d) == last;
    } else {
      var p := s[..|s| - 1];
      assert p[0] == s[0];
      CanonicalDecimalUnique(p);
      LeadingDigitPositive(p);
      var n := ParseDecimal(s);
      assert n == ParseDecimal(p) * 10 + d;
      assert n / 10 == ParseDecimal(p) && n % 10 == d;
      assert DigitChar(d) == last;
      assert p + [last] == s;
    }
  }

  /** A numeral that starts with a non-zero digit has a positive value. */
  lemma {:induction false} LeadingDigitPositive(s: string)
    requires IsDigits(s) && s != [] && s[0] != '0'
    ensures ParseDecimal(s) > 0
    decreases |s|
  {
    if |s| > 1 {
      var p := s[..|s| - 1];
      assert p[0] == s[0];
      LeadingDigitPositive(p);
    } else {
      assert s[..0] == [];
    }
  }
}
