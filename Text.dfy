/**
 * The string operations the crawler relies on: `String.prototype.split` with a
 * one-character separator, the destructuring `[, , , ext] = url.split(".")`,
 * and the decimal rendering of a media index inside a template string.
 */
module Text {

  /** `s.split([sep])`: the pieces of `s` between occurrences of `sep`; "" splits to [""]. */
  function Split(s: string, sep: char): (parts: seq<string>)
    ensures |parts| >= 1
  {
    if s == [] then [""]
    else
      var rest := Split(s[1..], sep);
      if s[0] == sep then [""] + rest
      else [[s[0]] + rest[0]] + rest[1..]
  }

  /** `parts.join([sep])`, the inverse of Split. */
  function Join(parts: seq<string>, sep: char): string
    requires |parts| >= 1
  {
    if |parts| == 1 then parts[0] else parts[0] + [sep] + Join(parts[1..], sep)
  }

  /** No piece contains the separator. */
  predicate SeparatorFree(parts: seq<string>, sep: char)
  {
    forall k :: 0 <= k < |parts| ==> sep !in parts[k]
  }

  /** Splitting then joining gives back the string, and no piece holds the separator. */
  lemma {:induction false} JoinSplit(s: string, sep: char)
    ensures Join(Split(s, sep), sep) == s
    ensures SeparatorFree(Split(s, sep), sep)
  {
    if s != [] {
      JoinSplit(s[1..], sep);
      var rest := Split(s[1..], sep);
      if s[0] != sep && |rest| > 1 {
        assert Join(rest, sep) == rest[0] + [sep] + Join(rest[1..], sep);
        assert ([[s[0]] + rest[0]] + rest[1..])[1..] == rest[1..];
      }
      assert s == [s[0]] + s[1..];
    }
  }

  /** A piece free of the separator splits to itself. */
  lemma {:induction false} SplitSegment(p: string, sep: char)
    requires sep !in p
    ensures Split(p, sep) == [p]
  {
    if p != [] {
      SplitSegment(p[1..], sep);
      assert p == [p[0]] + p[1..];
    }
  }

  /** A separator-free piece followed by the separator splits off as the first piece. */
  lemma {:induction false} SplitAfterSegment(p: string, sep: char, t: string)
    requires sep !in p
    ensures Split(p + [sep] + t, sep) == [p] + Split(t, sep)
  {
    var s := p + [sep] + t;
    if p == [] {
      assert s[1..] == t;
    } else {
      SplitAfterSegment(p[1..], sep, t);
      assert s[1..] == p[1..] + [sep] + t;
      assert [p[0]] + p[1..] == p;
    }
  }

  /** Split of a string that starts with character c. */
  lemma SplitCons(c: char, t: string, sep: char)
    ensures var rest := Split(t, sep);
      Split([c] + t, sep) == if c == sep then [""] + rest else [[c] + rest[0]] + rest[1..]
  {
    assert ([c] + t)[1..] == t;
  }

  /** Gluing c onto the first piece commutes with appending more pieces. */
  lemma GlueFirst(c: char, head: seq<string>, tail: seq<string>)
    requires |head| >= 1
    ensures [[c] + head[0]] + head[1..] + tail == [[c] + (head + tail)[0]] + (head + tail)[1..]
  {
    assert (head + tail)[1..] == head[1..] + tail;
  }

  /** Splitting around one separator joins the pieces of either side. */
  lemma {:induction false} SplitAround(x: string, sep: char, y: string)
    ensures Split(x + [sep] + y, sep) == Split(x, sep) + Split(y, sep)
  {
    if x == [] {
      SplitCons(sep, y, sep);
      assert x + [sep] + y == [sep] + y;
    } else {
      var c, rest := x[0], x[1..] + [sep] + y;
      assert x + [sep] + y == [c] + rest;
      assert x == [c] + x[1..];
      SplitAround(x[1..], sep, y);
      SplitCons(c, rest, sep);
      SplitCons(c, x[1..], sep);
      if c != sep {
        GlueFirst(c, Split(x[1..], sep), Split(y, sep));
      }
    }
  }

  /**
   * If `x + sep + y == x' + sep + y'` and neither y nor y' contains the
   * separator, the two sides agree: the piece after the last separator, and
   * everything before it, are determined.
   */
  lemma LastPieceDetermined(x: string, y: string, x': string, y': string, sep: char)
    requires sep !in y && sep !in y'
    requires x + [sep] + y == x' + [sep] + y'
    ensures x == x' && y == y'
  {
    SplitAround(x, sep, y);
    SplitAround(x', sep, y');
    SplitSegment(y, sep);
    SplitSegment(y', sep);
    var whole := Split(x, sep) + [y];
    assert whole == Split(x', sep) + [y'];
    assert whole[..|whole| - 1] == Split(x, sep);
    assert (Split(x', sep) + [y'])[..|whole| - 1] == Split(x', sep);
    JoinSplit(x, sep);
    JoinSplit(x', sep);
  }

  /** Joining separator-free pieces and splitting again gives back the pieces. */
  lemma {:induction false} SplitJoin(parts: seq<string>, sep: char)
    requires |parts| >= 1 && SeparatorFree(parts, sep)
    ensures Split(Join(parts, sep), sep) == parts
  {
    if |parts| == 1 {
      SplitSegment(parts[0], sep);
    } else {
      SplitJoin(parts[1..], sep);
      SplitAfterSegment(parts[0], sep, Join(parts[1..], sep));
      assert [parts[0]] + parts[1..] == parts;
    }
  }

  /** The text a template string prints for an absent value. */
  const UNDEFINED_TEXT := "undefined"

  /**
   * The `ext` of `const [, , , ext] = url.split(".")`: the fourth dot-separated
   * piece of the URL, or the text `undefined` when there are fewer than four.
   */
  function Extension(url: string): (ext: string)
    ensures '.' !in ext
  {
    var parts := Split(url, '.');
    JoinSplit(url, '.');
    if |parts| >= 4 then parts[3] else UNDEFINED_TEXT
  }

  /**
   * For any URL written as dot-free pieces joined by dots, the extension is the
   * fourth piece, or `undefined` when there are fewer than four pieces.
   */
  lemma ExtensionOfPieces(parts: seq<string>)
    requires |parts| >= 1 && SeparatorFree(parts, '.')
    ensures Extension(Join(parts, '.')) == if |parts| >= 4 then parts[3] else UNDEFINED_TEXT
  {
    SplitJoin(parts, '.');
  }

  /** Whether c is one of the ten decimal digits. */
  predicate IsDigit(c: char)
  {
    '0' <= c <= '9'
  }

  function DigitChar(d: nat): (c: char)
    requires d < 10
    ensures IsDigit(c)
  {
    ('0' as int + d) as char
  }

  function DigitValue(c: char): nat
    requires IsDigit(c)
  {
    (c as int - '0' as int) as nat
  }

  /** How a template string prints a non-negative integer: its decimal digits, no leading zeros. */
  function Decimal(n: nat): (s: string)
    ensures |s| >= 1
    ensures forall k :: 0 <= k < |s| ==> IsDigit(s[k])
    ensures n >= 10 ==> s[0] != '0'
  {
    if n < 10 then [DigitChar(n)] else Decimal(n / 10) + [DigitChar(n % 10)]
  }

  /** Reads a string of decimal digits back as a number; the reference inverse of Decimal. */
  function ParseDecimal(s: string): nat
    requires forall k :: 0 <= k < |s| ==> IsDigit(s[k])
  {
    if s == [] then 0 else ParseDecimal(s[..|s| - 1]) * 10 + DigitValue(s[|s| - 1])
  }

  lemma {:induction false} ParseDecimalOfDecimal(n: nat)
    ensures ParseDecimal(Decimal(n)) == n
  {
    var s := Decimal(n);
    if n >= 10 {
      ParseDecimalOfDecimal(n / 10);
      assert s[..|s| - 1] == Decimal(n / 10);
    }
  }

  /** Different indices print differently. */
  lemma DecimalInjective(a: nat, b: nat)
    ensures Decimal(a) == Decimal(b) <==> a == b
  {
    if Decimal(a) == Decimal(b) {
      ParseDecimalOfDecimal(a);
      ParseDecimalOfDecimal(b);
    }
  }

  /**
   * If `x + sep + y == x' + sep + y'` and neither x nor x' contains the
   * separator, then x == x': the piece before the first separator is determined.
   */
  lemma {:induction false} FirstPieceDetermined(x: string, y: string, x': string, y': string, sep: char)
    requires sep !in x && sep !in x'
    requires x + [sep] + y == x' + [sep] + y'
    ensures x == x'
  {
    SplitAfterSegment(x, sep, y);
    SplitAfterSegment(x', sep, y');
    assert ([x] + Split(y, sep))[0] == x;
    assert ([x'] + Split(y', sep))[0] == x';
  }
}
