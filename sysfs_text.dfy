/**
  The text of a framebuffer's sysfs attributes and how `read_sysfs` turns it into numbers:
  the file's contents are stripped of surrounding whitespace and converted with `int`, or,
  for `virtual_size`, split at commas and each part converted with `int`. Any failure to
  read or convert yields the caller's default. Integer conversion is modelled for plain
  digit strings only.
*/
module SysfsText {
  import opened Wrappers

  /**
    Whitespace as `str.strip()` sees it (`str.isspace`): space, tab to carriage return, the
    four separators 0x1C-0x1F, and the Unicode spaces and line breaks U+0085, U+00A0,
    U+1680, U+2000-U+200A, U+2028, U+2029, U+202F, U+205F and U+3000.
  */
  predicate IsSpace(c: char) {
    var n := c as int;
    n == 0x20 || 0x09 <= n <= 0x0D || 0x1C <= n <= 0x1F || n == 0x85 || n == 0xA0 || n == 0x1680 ||
    0x2000 <= n <= 0x200A || n == 0x2028 || n == 0x2029 || n == 0x202F || n == 0x205F || n == 0x3000
  }

  /** Drops leading whitespace. */
  function TrimStart(s: string): (r: string)
    ensures |r| <= |s| && r == s[|s| - |r|..]
    ensures |r| > 0 ==> !IsSpace(r[0])
    ensures forall k :: 0 <= k < |s| - |r| ==> IsSpace(s[k])
  {
    if |s| > 0 && IsSpace(s[0]) then TrimStart(s[1..]) else s
  }

  /** Drops trailing whitespace. */
  function TrimEnd(s: string): (r: string)
    ensures |r| <= |s| && r == s[..|r|]
    ensures |r| > 0 ==> !IsSpace(r[|r| - 1])
    ensures forall k :: |r| <= k < |s| ==> IsSpace(s[k])
  {
    if |s| > 0 && IsSpace(s[|s| - 1]) then TrimEnd(s[..|s| - 1]) else s
  }

  /** `str.strip()`: the text without whitespace at either end. */
  function Strip(s: string): string {
    TrimEnd(TrimStart(s))
  }

  /** A value written without surrounding whitespace comes back unchanged from `strip()` after the newline sysfs appends. */
  lemma StripValueLine(s: string)
    requires |s| > 0 && !IsSpace(s[0]) && !IsSpace(s[|s| - 1])
    ensures Strip(s + "\n") == s
  {
    var t := s + "\n";
    assert TrimStart(t) == t;
    assert t[..|t| - 1] == s;
    assert TrimEnd(t) == TrimEnd(s);
  }

  /** `str.split(sep)`: the pieces between separators; there is always at least one piece. */
  function Split(s: string, sep: char): (parts: seq<string>)
    ensures |parts| >= 1
    ensures forall k :: 0 <= k < |parts| ==> sep !in parts[k]
  {
    if |s| == 0 then [""]
    else
      var rest := Split(s[1..], sep);
      if s[0] == sep then [""] + rest
      else [[s[0]] + rest[0]] + rest[1..]
  }

  /** `sep.join(parts)`: the inverse of `Split`. */
  function Join(parts: seq<string>, sep: char): string
    requires |parts| >= 1
  {
    if |parts| == 1 then parts[0] else parts[0] + [sep] + Join(parts[1..], sep)
  }

  /** Splitting loses nothing: joining the pieces with the separator gives the text back. */
  lemma {:induction false} JoinSplit(s: string, sep: char)
    ensures Join(Split(s, sep), sep) == s
  {
    if |s| > 0 {
      var rest := Split(s[1..], sep);
      JoinSplit(s[1..], sep);
      if s[0] != sep {
        var parts := Split(s, sep);
        assert parts[0] == [s[0]] + rest[0] && parts[1..] == rest[1..];
        if |rest| > 1 {
          assert Join(rest, sep) == rest[0] + [sep] + Join(rest[1..], sep);
        }
      }
    }
  }

  /** Text without the separator is one piece. */
  lemma {:induction false} SplitNoSeparator(a: string, sep: char)
    requires sep !in a
    ensures Split(a, sep) == [a]
  {
    if |a| > 0 {
      SplitNoSeparator(a[1..], sep);
      assert [a[0]] + a[1..] == a;
    }
  }

  /** Two separator-free texts joined by one separator split back into exactly those two. */
  lemma {:induction false} SplitPair(a: string, b: string, sep: char)
    requires sep !in a && sep !in b
    ensures Split(a + [sep] + b, sep) == [a, b]
  {
    if |a| == 0 {
      assert a + [sep] + b == [sep] + b;
      assert ([sep] + b)[1..] == b;
      SplitNoSeparator(b, sep);
    } else {
      assert (a + [sep] + b)[1..] == a[1..] + [sep] + b;
      SplitPair(a[1..], b, sep);
      assert [a[0]] + a[1..] == a;
    }
  }

  predicate IsDigit(c: char) {
    '0' <= c <= '9'
  }

  predicate AllDigits(s: string) {
    forall k :: 0 <= k < |s| ==> IsDigit(s[k])
  }

  function DigitValue(c: char): (d: nat)
    requires IsDigit(c)
    ensures d < 10
  {
    (c as int) - ('0' as int)
  }

  function DigitChar(d: nat): (c: char)
    requires d < 10
    ensures IsDigit(c) && DigitValue(c) == d
  {
    (('0' as int) + d) as char
  }

  /** The number a string of decimal digits denotes, most significant digit first. */
  function DecimalValue(s: string): nat
    requires AllDigits(s)
  {
    if |s| == 0 then 0 else 10 * DecimalValue(s[..|s| - 1]) + DigitValue(s[|s| - 1])
  }

  /** `int(s)` for the texts this model accepts: a non-empty run of decimal digits; anything else fails. */
  function ParseNat(s: string): (r: Option<nat>)
    ensures r.Some? <==> |s| > 0 && AllDigits(s)
  {
    if |s| > 0 && AllDigits(s) then Some(DecimalValue(s)) else None
  }

  /** The decimal text of a number, as the kernel prints it: no sign, no leading zeros. */
  function ShowNat(n: nat): (s: string)
    ensures |s| > 0 && AllDigits(s)
  {
    if n < 10 then [DigitChar(n)] else ShowNat(n / 10) + [DigitChar(n % 10)]
  }

  /** The digits `ShowNat` prints denote the number printed. */
  lemma {:induction false} DecimalShowNat(n: nat)
    ensures DecimalValue(ShowNat(n)) == n
  {
    var s := ShowNat(n);
    if n < 10 {
      assert s[..|s| - 1] == [];
    } else {
      DecimalShowNat(n / 10);
      assert s[..|s| - 1] == ShowNat(n / 10);
      assert DigitValue(s[|s| - 1]) == n % 10;
    }
  }

  /** Printing a number and converting the text back gives the number. */
  lemma ParseShowNat(n: nat)
    ensures ParseNat(ShowNat(n)) == Some(n)
  {
    DecimalShowNat(n);
  }

  /** `tuple(map(int, parts))`: every piece converted, or failure if any piece does not convert. */
  function ParseAll(parts: seq<string>): (r: Option<seq<int>>)
    ensures r.Some? <==> forall k :: 0 <= k < |parts| ==> ParseNat(parts[k]).Some?
    ensures r.Some? ==> |r.value| == |parts|
    ensures r.Some? ==> forall k :: 0 <= k < |parts| ==> r.value[k] == ParseNat(parts[k]).value
  {
    if |parts| == 0 then Some([])
    else
      match ParseNat(parts[0])
      case None => None
      case Some(n) =>
        match ParseAll(parts[1..])
        case None => None
        case Some(rest) => Some([n as int] + rest)
  }

  /** `read_sysfs(path, None, int)`: `text` is the file's contents, or `None` when it cannot be read. */
  function ReadInt(text: Option<string>): Option<int> {
    match text
    case None => None
    case Some(t) =>
      match ParseNat(Strip(t))
      case None => None
      case Some(n) => Some(n)
  }

  /** `read_sysfs(path, None, lambda s: tuple(map(int, s.split(','))))` for `virtual_size`. */
  function ReadIntList(text: Option<string>): Option<seq<int>> {
    match text
    case None => None
    case Some(t) => ParseAll(Split(Strip(t), ','))
  }

  /** A number attribute as the kernel writes it (digits and a newline) reads back as that number. */
  lemma IntAttributeRoundTrip(n: nat)
    ensures ReadInt(Some(ShowNat(n) + "\n")) == Some(n)
  {
    var s := ShowNat(n);
    StripValueLine(s);
    ParseShowNat(n);
  }

  /** A whitespace character before the text makes no difference to `strip()`. */
  lemma LeadingSpaceStripped(c: char, s: string)
    requires IsSpace(c)
    ensures Strip([c] + s) == Strip(s)
  {
    assert ([c] + s)[1..] == s;
  }

  /** Non-ASCII whitespace is stripped too: a number attribute with a no-break space before its digits still reads back as that number. */
  lemma NoBreakSpaceStripped(n: nat)
    ensures ReadInt(Some("\U{00A0}" + ShowNat(n) + "\n")) == Some(n)
  {
    var s := ShowNat(n);
    assert "\U{00A0}" + s + "\n" == ['\U{00A0}'] + (s + "\n");
    LeadingSpaceStripped('\U{00A0}', s + "\n");
    IntAttributeRoundTrip(n);
  }

  /** A `virtual_size` attribute as the kernel writes it (`x,y` and a newline) reads back as the pair. */
  lemma SizeAttributeRoundTrip(x: nat, y: nat)
    ensures ReadIntList(Some(ShowNat(x) + "," + ShowNat(y) + "\n")) == Some([x, y])
  {
    var a, b := ShowNat(x), ShowNat(y);
    var s := a + "," + b;
    assert s[0] == a[0] && s[|s| - 1] == b[|b| - 1];
    StripValueLine(s);
    assert ',' !in a && ',' !in b by {
      assert !IsDigit(',');
    }
    assert s == a + [','] + b;
    SplitPair(a, b, ',');
    ParseShowNat(x);
    ParseShowNat(y);
    assert ShowNat(x) + "," + ShowNat(y) + "\n" == s + "\n";
    assert [a, b][1..] == [b] && [b][1..] == [];
    assert ParseNat(b) == Some(y);
    assert ParseAll([b][1..]) == Some([]);
    assert [y as int] + [] == [y];
    assert ParseAll([b]) == Some([y]);
    assert ParseNat([a, b][0]) == Some(x);
    assert ParseAll([a, b][1..]) == Some([y]);
    assert [x as int] + [y] == [x, y];
    assert ParseAll([a, b]) == Some([x, y]);
    assert Split(Strip(s + "\n"), ',') == [a, b];
  }
}
