/** String operations the source takes from Python's `str` and `pathlib`:
    `split` on one separator, `join`, `rsplit(sep, maxsplit=1)`,
    `Path.stem`/`Path.suffix`, decimal rendering and parsing of integers
    and ASCII case mapping. */
module Text {
  import opened Common

  /** `s.split(sep)`: the pieces between separators, empty pieces kept. */
  function Split(s: string, sep: char): (r: seq<string>)
    ensures |r| >= 1
    ensures forall i | 0 <= i < |r| :: sep !in r[i]
    decreases |s|
  {
    if s == [] then [[]]
    else
      var rest := Split(s[1..], sep);
      if s[0] == sep then [[]] + rest
      else [[s[0]] + rest[0]] + rest[1..]
  }

  /** `sep.join(parts)`. */
  function Join(parts: seq<string>, sep: char): string
  {
    if |parts| == 0 then []
    else if |parts| == 1 then parts[0]
    else parts[0] + [sep] + Join(parts[1..], sep)
  }

  lemma {:induction false} JoinAppend(parts: seq<string>, last: string, sep: char)
    requires |parts| >= 1
    ensures Join(parts + [last], sep) == Join(parts, sep) + [sep] + last
  {
    if |parts| == 1 {
      assert parts + [last] == [parts[0], last];
    } else {
      var rest := parts[1..];
      assert (parts + [last])[1..] == rest + [last];
      JoinAppend(rest, last, sep);
      var head := parts[0] + [sep];
      assert Join(parts + [last], sep) == head + Join(rest + [last], sep);
      assert Join(parts, sep) == head + Join(rest, sep);
      assert head + (Join(rest, sep) + [sep] + last) == (head + Join(rest, sep)) + [sep] + last;
    }
  }

  lemma JoinCons(first: string, parts: seq<string>, sep: char)
    requires |parts| >= 1
    ensures Join([first] + parts, sep) == first + [sep] + Join(parts, sep)
  {
    assert ([first] + parts)[1..] == parts;
  }

  /** A join ends with its last piece. */
  lemma {:induction false} JoinLast(parts: seq<string>, sep: char)
    requires |parts| >= 1
    ensures var j, last := Join(parts, sep), parts[|parts| - 1];
            |j| >= |last| && j[|j| - |last|..] == last
  {
    if |parts| > 1 {
      JoinLast(parts[1..], sep);
      var a, b := parts[0] + [sep], Join(parts[1..], sep);
      var m := |parts[|parts| - 1]|;
      assert (a + b)[|a + b| - m..] == b[|b| - m..];
    }
  }

  /** Splitting and joining again gives back the string. */
  lemma {:induction false} JoinSplit(s: string, sep: char)
    ensures Join(Split(s, sep), sep) == s
  {
    if s != [] {
      var rest := Split(s[1..], sep);
      JoinSplit(s[1..], sep);
      if s[0] != sep && |rest| > 1 {
        var r := Split(s, sep);
        assert r[1..] == rest[1..];
        assert Join(r, sep) == [s[0]] + rest[0] + [sep] + Join(rest[1..], sep);
      }
    }
  }

  lemma {:induction false} SplitNoSep(s: string, sep: char)
    requires sep !in s
    ensures Split(s, sep) == [s]
    decreases |s|
  {
    if s != [] {
      SplitNoSep(s[1..], sep);
      assert s[0] != sep;
      assert [s[0]] + s[1..] == s;
    }
  }

  lemma {:induction false} SplitPrefix(a: string, b: string, sep: char)
    requires sep !in a
    ensures Split(a + [sep] + b, sep) == [a] + Split(b, sep)
    decreases |a|
  {
    if a == [] {
      assert a + [sep] + b == [sep] + b;
      assert ([sep] + b)[1..] == b;
    } else {
      assert (a + [sep] + b)[1..] == a[1..] + [sep] + b;
      SplitPrefix(a[1..], b, sep);
      assert [a[0]] + a[1..] == a;
    }
  }

  /** Joining pieces that hold no separator and splitting again gives back
      the pieces. */
  lemma {:induction false} SplitJoin(parts: seq<string>, sep: char)
    requires |parts| >= 1
    requires forall i | 0 <= i < |parts| :: sep !in parts[i]
    ensures Split(Join(parts, sep), sep) == parts
  {
    if |parts| == 1 {
      SplitNoSep(parts[0], sep);
    } else {
      SplitJoin(parts[1..], sep);
      SplitPrefix(parts[0], Join(parts[1..], sep), sep);
      assert [parts[0]] + parts[1..] == parts;
    }
  }

  lemma ConsAppend<T>(x: T, a: seq<T>, y: T)
    ensures [x] + (a + [y]) == ([x] + a) + [y]
  {
  }

  /** `reversed(s)`, as a sequence. */
  function Reverse<T>(s: seq<T>): (r: seq<T>)
    ensures |r| == |s|
  {
    if s == [] then [] else Reverse(s[1..]) + [s[0]]
  }

  lemma {:induction false} ReverseAppend<T>(s: seq<T>, x: T)
    ensures Reverse(s + [x]) == [x] + Reverse(s)
  {
    if s != [] {
      assert (s + [x])[1..] == s[1..] + [x];
      ReverseAppend(s[1..], x);
    }
  }

  /** The pieces that are not empty, in order. */
  function NonEmpty(parts: seq<string>): (r: seq<string>)
    ensures forall i | 0 <= i < |r| :: r[i] != []
    ensures |r| <= |parts|
  {
    if parts == [] then []
    else if parts[0] == [] then NonEmpty(parts[1..])
    else [parts[0]] + NonEmpty(parts[1..])
  }

  lemma {:induction false} NonEmptyAppend(parts: seq<string>, last: string)
    ensures NonEmpty(parts + [last]) == NonEmpty(parts) + (if last == [] then [] else [last])
  {
    if parts != [] {
      assert (parts + [last])[1..] == parts[1..] + [last];
      NonEmptyAppend(parts[1..], last);
    }
  }

  /** The non-empty pieces of a prefix come first among those of the
      whole. */
  lemma {:induction false} NonEmptyPrefix(parts: seq<string>, k: nat)
    requires k <= |parts|
    ensures NonEmpty(parts[..k]) <= NonEmpty(parts)
    decreases |parts|
  {
    if k < |parts| {
      var init := parts[..|parts| - 1];
      assert init[..k] == parts[..k];
      NonEmptyPrefix(init, k);
      NonEmptyAppend(init, parts[|parts| - 1]);
      assert parts == init + [parts[|parts| - 1]];
    } else {
      assert parts[..k] == parts;
    }
  }

  lemma NonEmptyThroughPiece(parts: seq<string>, k: nat)
    requires k < |parts| && parts[k] != []
    ensures NonEmpty(parts[..k + 1]) == NonEmpty(parts[..k]) + [parts[k]]
  {
    var init := parts[..k];
    assert parts[..k + 1] == init + [parts[k]];
    NonEmptyAppend(init, parts[k]);
  }

  lemma NonEmptySkipsEmpty(parts: seq<string>, k: nat)
    requires k < |parts| && parts[k] == []
    ensures NonEmpty(parts[..k + 1]) == NonEmpty(parts[..k])
  {
    var init := parts[..k];
    assert parts[..k + 1] == init + [parts[k]];
    NonEmptyAppend(init, parts[k]);
    assert NonEmpty(init) + [] == NonEmpty(init);
  }

  /** The non-empty pieces up to and including a non-empty piece `k` are a
      prefix of the non-empty pieces of the whole. */
  lemma PrefixThroughPiece(parts: seq<string>, k: nat)
    requires k < |parts| && parts[k] != []
    ensures NonEmpty(parts[..k]) + [parts[k]] <= NonEmpty(parts)
  {
    NonEmptyThroughPiece(parts, k);
    NonEmptyPrefix(parts, k + 1);
  }

  /** A trailing separator adds one empty piece. */
  lemma {:induction false} SplitTrailingSep(s: string, sep: char)
    ensures Split(s + [sep], sep) == Split(s, sep) + [[]]
    decreases |s|
  {
    if s != [] {
      assert (s + [sep])[1..] == s[1..] + [sep];
      SplitTrailingSep(s[1..], sep);
    }
  }

  /** Separators at either end add only empty pieces. */
  lemma OuterSepsIgnored(s: string, sep: char)
    ensures NonEmpty(Split([sep] + s, sep)) == NonEmpty(Split(s, sep))
    ensures NonEmpty(Split(s + [sep], sep)) == NonEmpty(Split(s, sep))
  {
    assert ([sep] + s)[1..] == s;
    assert ([[]] + Split(s, sep))[1..] == Split(s, sep);
    SplitTrailingSep(s, sep);
    NonEmptyAppend(Split(s, sep), []);
  }

  /** The position of the last `c` in `s`, if any (`str.rfind`). */
  function LastIndex(s: string, c: char): (r: Option<nat>)
    ensures r.Some? ==> r.value < |s| && s[r.value] == c && c !in s[r.value + 1..]
    ensures r.None? ==> c !in s
  {
    if s == [] then None
    else if s[|s| - 1] == c then Some(|s| - 1)
    else
      var r := LastIndex(s[..|s| - 1], c);
      assert s == s[..|s| - 1] + [s[|s| - 1]];
      r
  }

  /** `s.rsplit(sep, maxsplit=1)` unpacked into two names: `None` where
      Python's unpacking raises `ValueError` (no separator in `s`). */
  function RSplitOnce(s: string, sep: char): (r: Option<(string, string)>)
    ensures r.None? <==> sep !in s
    ensures r.Some? ==> s == r.value.0 + [sep] + r.value.1 && sep !in r.value.1
  {
    match LastIndex(s, sep)
    case None => None
    case Some(i) =>
      assert s == s[..i] + [sep] + s[i + 1..];
      Some((s[..i], s[i + 1..]))
  }

  /** The last separator is the one before a separator-free tail. */
  lemma RSplitOnceAt(a: string, b: string, sep: char)
    requires sep !in b
    ensures RSplitOnce(a + [sep] + b, sep) == Some((a, b))
  {
    var s := a + [sep] + b;
    LastIndexAt(a, sep, b);
    assert s[..|a|] == a && s[|a| + 1..] == b;
  }

  /** The last occurrence of `c` is the one before a `c`-free tail. */
  lemma {:induction false} LastIndexAt(a: string, c: char, b: string)
    requires c !in b
    ensures LastIndex(a + [c] + b, c) == Some(|a|)
  {
    var s := a + [c] + b;
    if b != [] {
      var init := b[..|b| - 1];
      assert s[|s| - 1] == b[|b| - 1] != c;
      assert s[..|s| - 1] == a + [c] + init;
      assert c !in init by { assert forall x | x in init :: x in b; }
      LastIndexAt(a, c, init);
    }
  }

  /** Where `pathlib` splits a file name into stem and suffix: at the last
      '.', provided it is neither the first nor the last character. */
  function SuffixStart(name: string): (r: Option<nat>)
    ensures r.Some? ==> 0 < r.value < |name| - 1 && name[r.value] == '.'
  {
    match LastIndex(name, '.')
    case Some(i) => if 0 < i < |name| - 1 then Some(i) else None
    case None => None
  }

  /** `Path(name).stem`. */
  function Stem(name: string): string
  {
    match SuffixStart(name)
    case Some(i) => name[..i]
    case None => name
  }

  /** `Path(name).suffix`. */
  function Suffix(name: string): string
  {
    match SuffixStart(name)
    case Some(i) => name[i..]
    case None => []
  }

  /** A name with a non-empty part before and after its last '.' splits
      there. */
  lemma StemSuffixAt(stem: string, ext: string)
    requires stem != [] && ext != [] && '.' !in ext
    ensures Stem(stem + "." + ext) == stem && Suffix(stem + "." + ext) == "." + ext
  {
    var name := stem + "." + ext;
    assert name == stem + ['.'] + ext;
    LastIndexAt(stem, '.', ext);
    assert SuffixStart(name) == Some(|stem|);
    assert name[..|stem|] == stem && name[|stem|..] == "." + ext;
  }

  /** A file name is its stem followed by its suffix. */
  lemma StemSuffix(name: string)
    ensures Stem(name) + Suffix(name) == name
  {
    match SuffixStart(name)
    case Some(i) => assert name == name[..i] + name[i..];
    case None =>
  }

  /** The stem of a non-empty name is not empty, and a suffix is a '.'
      followed by at least one character, none of them a '.'. */
  lemma StemSuffixShape(name: string)
    ensures name != [] ==> Stem(name) != []
    ensures Suffix(name) != [] ==>
      && |Suffix(name)| >= 2 && |Suffix(name)| < |name|
      && Suffix(name)[0] == '.' && '.' !in Suffix(name)[1..]
  {
    match SuffixStart(name)
    case Some(i) => assert name == name[..i] + name[i..];
    case None =>
  }

  function DigitChar(d: nat): char
    requires d < 10
  {
    ('0' as int + d) as char
  }

  /** `str(k)` for a natural number. */
  function NatToString(k: nat): (r: string)
    ensures |r| >= 1
    ensures forall i | 0 <= i < |r| :: '0' <= r[i] <= '9'
  {
    if k < 10 then [DigitChar(k)]
    else NatToString(k / 10) + [DigitChar(k % 10)]
  }

  /** Different numbers are rendered differently. */
  lemma {:induction false} NatToStringInjective(a: nat, b: nat)
    requires NatToString(a) == NatToString(b)
    ensures a == b
  {
    var sa, sb := NatToString(a), NatToString(b);
    if a < 10 && b < 10 {
      assert DigitChar(a) == sa[0] == DigitChar(b);
    } else if a >= 10 && b >= 10 {
      assert sa[..|sa| - 1] == NatToString(a / 10);
      assert sb[..|sb| - 1] == NatToString(b / 10);
      NatToStringInjective(a / 10, b / 10);
      assert DigitChar(a % 10) == sa[|sa| - 1] == DigitChar(b % 10);
      assert a == 10 * (a / 10) + a % 10;
      assert b == 10 * (b / 10) + b % 10;
    }
  }

  function Pow10(d: nat): (r: nat)
    ensures r >= 1
  {
    if d == 0 then 1 else 10 * Pow10(d - 1)
  }

  /** A number written with at most `d` digits is below `10^d`. */
  lemma {:induction false} NatToStringBound(k: nat, d: nat)
    requires |NatToString(k)| <= d
    ensures k < Pow10(d)
  {
    if k >= 10 {
      NatToStringBound(k / 10, d - 1);
    }
  }

  predicate IsDigit(c: char)
  {
    '0' <= c <= '9'
  }

  /** The value of a non-empty run of decimal digits. */
  function DigitsValue(s: string): (r: nat)
    requires forall i | 0 <= i < |s| :: IsDigit(s[i])
  {
    if s == [] then 0
    else
      var last := s[|s| - 1];
      assert IsDigit(last);
      10 * DigitsValue(s[..|s| - 1]) + (last as int - '0' as int)
  }

  /** `int(s)` for an optional sign followed by ASCII digits; `None` where
      Python raises `ValueError`. */
  function ParseInt(s: string): (r: Option<int>)
    ensures r.Some? ==> s != []
    ensures r.Some? && r.value < 0 ==> s[0] == '-'
  {
    if s == [] then None
    else
      var sign, digits := if s[0] == '-' then -1 else 1, if s[0] in "+-" then s[1..] else s;
      if digits != [] && forall i | 0 <= i < |digits| :: IsDigit(digits[i])
      then Some(sign * DigitsValue(digits))
      else None
  }

  /** `int(str(k)) == k`. */
  lemma {:induction false} ParseNatToString(k: nat)
    ensures ParseInt(NatToString(k)) == Some(k)
  {
    var s := NatToString(k);
    DigitsOfNatToString(k);
    assert IsDigit(s[0]);
    assert s[0] != '+' && s[0] != '-';
    assert s[0] !in "+-";
    assert forall i | 0 <= i < |s| :: IsDigit(s[i]);
  }

  /** `int('-' + str(k)) == -k` and `int('+' + str(k)) == k`. */
  lemma ParseSignedNatToString(k: nat)
    ensures ParseInt("-" + NatToString(k)) == Some(-(k as int))
    ensures ParseInt("+" + NatToString(k)) == Some(k as int)
  {
    var s := NatToString(k);
    DigitsOfNatToString(k);
    assert forall i | 0 <= i < |s| :: IsDigit(s[i]);
    ParseSigned('-', s);
    ParseSigned('+', s);
  }

  /** A sign followed by digits parses to the signed value of the digits. */
  lemma ParseSigned(c: char, s: string)
    requires c == '-' || c == '+'
    requires s != [] && forall i | 0 <= i < |s| :: IsDigit(s[i])
    ensures ParseInt([c] + s) == Some(if c == '-' then 0 - DigitsValue(s) as int else DigitsValue(s) as int)
  {
    var t := [c] + s;
    assert t[0] == c && t[0] in "+-" && t[1..] == s;
  }

  lemma {:induction false} DigitsOfNatToString(k: nat)
    ensures DigitsValue(NatToString(k)) == k
  {
    var s := NatToString(k);
    if k >= 10 {
      DigitsOfNatToString(k / 10);
      assert s[..|s| - 1] == NatToString(k / 10);
      assert k == 10 * (k / 10) + k % 10;
    }
  }

  function UpperChar(c: char): char
  {
    if 'a' <= c <= 'z' then (c as int - 32) as char else c
  }

  function LowerChar(c: char): char
  {
    if 'A' <= c <= 'Z' then (c as int + 32) as char else c
  }

  /** `str.upper()` restricted to ASCII letters. */
  function Upper(s: string): (r: string)
    ensures |r| == |s|
    ensures forall i | 0 <= i < |s| :: r[i] == UpperChar(s[i])
  {
    seq(|s|, i requires 0 <= i < |s| => UpperChar(s[i]))
  }

  /** `str.lower()` restricted to ASCII letters. */
  function Lower(s: string): (r: string)
    ensures |r| == |s|
    ensures forall i | 0 <= i < |s| :: r[i] == LowerChar(s[i])
  {
    seq(|s|, i requires 0 <= i < |s| => LowerChar(s[i]))
  }

  /** Lower-casing forgets an earlier upper-casing. */
  lemma LowerOfUpper(s: string)
    ensures Lower(Upper(s)) == Lower(s)
  {
  }
}
