/** The Python `str` built-ins the log parser relies on, with the semantics CPython gives
    them: `strip`, `split(sep)`, `rsplit(sep, 1)`, `replace(c, '')`, `in` and `int()`. */
module PyStr {
  import opened Basics

  /** The characters `str.isspace()` accepts, which `str.strip()` with no argument removes. */
  const Whitespace: string :=
    "\t\n\U{B}\U{C}\r\U{1C}\U{1D}\U{1E}\U{1F} \U{85}\U{A0}\U{1680}"
    + "\U{2000}\U{2001}\U{2002}\U{2003}\U{2004}\U{2005}\U{2006}\U{2007}\U{2008}\U{2009}\U{200A}"
    + "\U{2028}\U{2029}\U{202F}\U{205F}\U{3000}"

  // ---------------------------------------------------------------- strip

  /** Where `s.lstrip(chars)` starts when scanning from `i`: the first index at or after `i`
      whose character is outside `chars`, or `|s|`. */
  function SkipLeft(s: string, chars: string, i: nat): (k: nat)
    requires i <= |s|
    ensures i <= k <= |s|
    ensures forall j :: i <= j < k ==> s[j] in chars
    ensures k < |s| ==> s[k] !in chars
    decreases |s| - i
  {
    if i < |s| && s[i] in chars then SkipLeft(s, chars, i + 1) else i
  }

  /** Where `s[..k].rstrip(chars)` ends when it may cut back no further than `lo`. */
  function SkipRight(s: string, chars: string, k: nat, lo: nat): (e: nat)
    requires lo <= k <= |s|
    ensures lo <= e <= k
    ensures forall j :: e <= j < k ==> s[j] in chars
    ensures e > lo ==> s[e - 1] !in chars
    decreases k
  {
    if k > lo && s[k - 1] in chars then SkipRight(s, chars, k - 1, lo) else k
  }

  /** `s.strip(chars)`: drops the longest prefix of characters in `chars`, then the longest
      such suffix of what is left; the two ends of the result are outside `chars`. */
  function Strip(s: string, chars: string): (r: string)
    ensures |r| <= |s|
    ensures r != [] ==> r[0] !in chars && r[|r| - 1] !in chars
  {
    var a := SkipLeft(s, chars, 0);
    s[a..SkipRight(s, chars, |s|, a)]
  }

  /** `s.strip()`: removes leading and trailing whitespace. */
  function StripSpace(s: string): (r: string)
    ensures r != [] ==> r[0] !in Whitespace && r[|r| - 1] !in Whitespace
  {
    Strip(s, Whitespace)
  }

  /** Stripping is idempotent. */
  lemma StripIdempotent(s: string, chars: string)
    ensures Strip(Strip(s, chars), chars) == Strip(s, chars)
  {
    if Strip(s, chars) != [] {
      StripUntouched(Strip(s, chars), chars);
    }
  }

  /** `(l + x + r).strip(chars)` is `x` when `l` and `r` are in `chars` and no character
      of `x` is. */
  lemma StripEnclosed(l: char, x: string, r: char, chars: string)
    requires l in chars && r in chars
    requires forall i :: 0 <= i < |x| ==> x[i] !in chars
    ensures Strip([l] + x + [r], chars) == x
  {
    var s := [l] + x + [r];
    if x == [] {
      assert SkipLeft(s, chars, 0) == 2;
    } else {
      assert SkipLeft(s, chars, 0) == 1;
      assert SkipRight(s, chars, |s|, 1) == |s| - 1;
      assert s[1..|s| - 1] == x;
    }
  }

  // ---------------------------------------------------------------- split

  /** `sep` occurs in `s` at index `i`. */
  predicate OccursAt(s: string, sep: string, i: nat) {
    i + |sep| <= |s| && s[i..i + |sep|] == sep
  }

  /** Python's `sep in s`. */
  ghost predicate Contains(s: string, sep: string) {
    exists i: nat :: OccursAt(s, sep, i)
  }

  /** `s.find(sep, start)`: the first occurrence of `sep` at or after `start`. */
  function FindFrom(s: string, sep: string, start: nat): (r: Option<nat>)
    requires |sep| > 0
    ensures r.Some? ==> start <= r.value && OccursAt(s, sep, r.value)
    ensures r.Some? ==> forall j: nat :: start <= j < r.value ==> !OccursAt(s, sep, j)
    ensures r.None? ==> forall j: nat :: start <= j ==> !OccursAt(s, sep, j)
    decreases |s| - start
  {
    if start + |sep| > |s| then None
    else if s[start..start + |sep|] == sep then Some(start)
    else FindFrom(s, sep, start + 1)
  }

  /** `sep.join(parts)`. */
  function Join(parts: seq<string>, sep: string): string {
    if |parts| == 0 then ""
    else if |parts| == 1 then parts[0]
    else parts[0] + sep + Join(parts[1..], sep)
  }

  /** `s.split(sep)` for a non-empty separator: the pieces between successive leftmost
      non-overlapping occurrences of `sep`. There is always at least one piece and joining
      the pieces with `sep` gives `s` back. */
  function Split(s: string, sep: string): (r: seq<string>)
    requires |sep| > 0
    ensures |r| >= 1
    ensures Join(r, sep) == s
    decreases |s|
  {
    match FindFrom(s, sep, 0)
    case None => [s]
    case Some(i) =>
      var rest := Split(s[i + |sep|..], sep);
      assert s == s[..i] + sep + s[i + |sep|..] by {
        assert s[i..i + |sep|] == sep;
      }
      assert ([s[..i]] + rest)[1..] == rest;
      [s[..i]] + rest
  }

  /** No piece produced by `split` contains the separator. */
  lemma {:induction false} SplitPiecesFree(s: string, sep: string)
    requires |sep| > 0
    ensures forall k :: 0 <= k < |Split(s, sep)| ==> !Contains(Split(s, sep)[k], sep)
    decreases |s|
  {
    match FindFrom(s, sep, 0)
    case None =>
    case Some(i) =>
      var head := s[..i];
      forall j: nat | OccursAt(head, sep, j) ensures false {
        assert head[j..j + |sep|] == s[j..j + |sep|];
        assert OccursAt(s, sep, j);
      }
      SplitPiecesFree(s[i + |sep|..], sep);
      assert Split(s, sep) == [head] + Split(s[i + |sep|..], sep);
  }

  /** A one-character separator in a string is a character of that string. */
  lemma ContainsChar(s: string, c: char)
    ensures Contains(s, [c]) <==> c in s
  {
    if c in s {
      var i :| 0 <= i < |s| && s[i] == c;
      assert OccursAt(s, [c], i);
    }
    if Contains(s, [c]) {
      var i: nat :| OccursAt(s, [c], i);
      assert s[i] == s[i..i + 1][0];
    }
  }

  /** Splitting undoes joining when the separator's last character occurs neither in
      any piece nor earlier in the separator (so for `","` and for `", "`, pieces without
      `','` and without `' '` respectively). */
  lemma {:induction false} SplitJoin(parts: seq<string>, sep: string)
    requires |sep| >= 1 && |parts| >= 1
    requires sep[|sep| - 1] !in sep[..|sep| - 1]
    requires forall k :: 0 <= k < |parts| ==> sep[|sep| - 1] !in parts[k]
    ensures Split(Join(parts, sep), sep) == parts
    decreases |parts|
  {
    var s := Join(parts, sep);
    var p := parts[0];
    var z := sep[|sep| - 1];
    var n := |sep|;
    if |parts| > 1 {
      assert s == p + sep + Join(parts[1..], sep);
    }
    forall j: nat | (j < |p| || |parts| == 1) && j + n <= |s| ensures !OccursAt(s, sep, j) {
      var q := j + n - 1;
      if q < |p| {
        assert s[q] == p[q];
      } else {
        assert s[q] == sep[q - |p|] == sep[..n - 1][q - |p|];
      }
      assert s[j..j + n][n - 1] == s[q];
    }
    if |parts| == 1 {
      assert FindFrom(s, sep, 0) == None;
    } else {
      assert OccursAt(s, sep, |p|);
      assert FindFrom(s, sep, 0) == Some(|p|);
      assert s[|p| + n..] == Join(parts[1..], sep);
      SplitJoin(parts[1..], sep);
    }
  }

  /** Every character of a joined string comes from a piece or from the separator. */
  lemma {:induction false} JoinChars(parts: seq<string>, sep: string, c: char)
    requires c in Join(parts, sep)
    ensures c in sep || exists k :: 0 <= k < |parts| && c in parts[k]
    decreases |parts|
  {
    if |parts| > 1 {
      assert Join(parts, sep) == parts[0] + sep + Join(parts[1..], sep);
      if c !in parts[0] && c !in sep {
        JoinChars(parts[1..], sep, c);
        var k :| 0 <= k < |parts| - 1 && c in parts[1..][k];
        assert c in parts[k + 1];
      }
    }
  }

  // ---------------------------------------------------------------- rsplit

  /** The last index of `c` in `s`. */
  function LastIndex(s: string, c: char): (k: nat)
    requires c in s
    ensures k < |s| && s[k] == c
    ensures forall j :: k < j < |s| ==> s[j] != c
  {
    if s[|s| - 1] == c then |s| - 1 else LastIndex(s[..|s| - 1], c)
  }

  /** `s.rsplit(c, 1)` when `c in s`: the text before and after the last `c`. */
  function RSplitOnce(s: string, c: char): (r: (string, string))
    requires c in s
    ensures s == r.0 + [c] + r.1
    ensures c !in r.1
  {
    var k := LastIndex(s, c);
    assert s == s[..k] + [c] + s[k + 1..];
    (s[..k], s[k + 1..])
  }

  /** The cut `rsplit` makes is the only one leaving no `c` on the right. */
  lemma RSplitOnceAt(a: string, c: char, b: string)
    requires c !in b
    ensures c in a + [c] + b && RSplitOnce(a + [c] + b, c) == (a, b)
  {
    var s := a + [c] + b;
    assert s[|a|] == c;
    var k := LastIndex(s, c);
    assert forall j :: |a| < j < |s| ==> s[j] == b[j - |a| - 1];
    assert k == |a|;
    assert s[..k] == a && s[k + 1..] == b;
  }

  // ---------------------------------------------------------------- replace

  /** `s.replace(c, '')`: `s` in order with every `c` removed. */
  function RemoveAll(s: string, c: char): (r: string)
    ensures c !in r
    ensures multiset(r) == multiset(s)[c := 0]
  {
    if s == [] then ""
    else
      assert s == [s[0]] + s[1..];
      (if s[0] == c then "" else [s[0]]) + RemoveAll(s[1..], c)
  }

  /** Removing a character that does not occur leaves the string unchanged. */
  lemma {:induction false} RemoveAllAbsent(s: string, c: char)
    requires c !in s
    ensures RemoveAll(s, c) == s
  {
    if s != [] {
      RemoveAllAbsent(s[1..], c);
    }
  }

  /** Removal keeps the order of what stays: removing from `a + b` is removing from `a`,
      then from `b`. */
  lemma {:induction false} RemoveAllConcat(a: string, b: string, c: char)
    ensures RemoveAll(a + b, c) == RemoveAll(a, c) + RemoveAll(b, c)
  {
    if a == [] {
      assert a + b == b;
      RemoveAllEmpty(c);
    } else {
      var x, rest := a[0], a[1..];
      assert a == [x] + rest && a + b == [x] + (rest + b);
      RemoveAllCons(x, rest + b, c);
      RemoveAllConcat(rest, b, c);
      RemoveAllCons(x, rest, c);
      ConcatAssoc(if x == c then "" else [x], RemoveAll(rest, c), RemoveAll(b, c));
    }
  }

  lemma ConcatAssoc(p: string, q: string, r: string)
    ensures p + (q + r) == (p + q) + r
  {
  }

  lemma RemoveAllEmpty(c: char)
    ensures RemoveAll([], c) == []
  {
  }

  /** The first character is kept in front exactly when it is not `c`. */
  lemma RemoveAllCons(x: char, s: string, c: char)
    ensures RemoveAll([x] + s, c) == (if x == c then "" else [x]) + RemoveAll(s, c)
  {
    assert ([x] + s)[0] == x && ([x] + s)[1..] == s;
  }

  /** A single character stays exactly when it is not the one removed. */
  lemma RemoveAllSingle(x: char, c: char)
    ensures RemoveAll([x], c) == if x == c then "" else [x]
  {
    assert [x][1..] == [];
  }

  // ---------------------------------------------------------------- int()

  predicate IsDigit(c: char) {
    '0' <= c <= '9'
  }

  predicate AllDigits(s: string) {
    forall i :: 0 <= i < |s| ==> IsDigit(s[i])
  }

  /** The decimal literal Python's `int()` accepts after the sign: digits, single
      underscores allowed between two digits. */
  predicate DigitGroups(s: string) {
    && |s| > 0
    && IsDigit(s[0])
    && IsDigit(s[|s| - 1])
    && (forall i :: 0 <= i < |s| ==> IsDigit(s[i]) || s[i] == '_')
    && (forall i :: 0 <= i < |s| - 1 ==> s[i] == '_' ==> s[i + 1] != '_')
  }

  /** The number a string of decimal digits denotes. */
  function DecimalValue(ds: string): nat
    requires AllDigits(ds)
  {
    if ds == [] then 0
    else DecimalValue(ds[..|ds| - 1]) * 10 + ((ds[|ds| - 1] as int) - ('0' as int))
  }

  /** The value of a digit-group literal: its digits with the underscores taken out. */
  function GroupsValue(s: string): nat
    requires DigitGroups(s)
  {
    var ds := RemoveAll(s, '_');
    assert AllDigits(ds) by {
      forall i | 0 <= i < |ds| ensures IsDigit(ds[i]) {
        assert ds[i] in multiset(ds);
        assert ds[i] in s;
      }
    }
    DecimalValue(ds)
  }

  /** The characters `int()` skips around the literal. Characters below 127 reach the
      digit reader unchanged, and it skips only C whitespace among them; every other
      `str.isspace()` character is first turned into a space. So this is the
      `str.isspace()` set without `'\x1c'` to `'\x1f'`. */
  const IntSpace: string :=
    "\t\n\U{B}\U{C}\r \U{85}\U{A0}\U{1680}"
    + "\U{2000}\U{2001}\U{2002}\U{2003}\U{2004}\U{2005}\U{2006}\U{2007}\U{2008}\U{2009}\U{200A}"
    + "\U{2028}\U{2029}\U{202F}\U{205F}\U{3000}"

  /** `int()` skips exactly the `str.isspace()` characters other than the four separators. */
  lemma IntSpaceIsWhitespace(c: char)
    ensures c in IntSpace <==> c in Whitespace && !('\U{1C}' <= c <= '\U{1F}')
  {
  }

  /** What `int()` accepts once the surrounding whitespace is gone: an optional sign, then
      digit groups; anything else is a `ValueError`, modelled as `None`. */
  function ParseLiteral(t: string): Option<int> {
    if |t| > 0 && (t[0] == '+' || t[0] == '-') then
      if DigitGroups(t[1..]) then
        var magnitude: int := GroupsValue(t[1..]);
        Some(if t[0] == '-' then -magnitude else magnitude)
      else None
    else if DigitGroups(t) then
      Some(GroupsValue(t) as int)
    else None
  }

  /** Python's `int(s)` in base 10: the literal with its surrounding whitespace ignored. */
  function ParseInt(s: string): Option<int> {
    ParseLiteral(Strip(s, IntSpace))
  }

  /** Python's `str(n)` for an integer. */
  function ShowNat(n: nat): (r: string)
    ensures |r| > 0 && AllDigits(r)
  {
    var d := ['0' + (n % 10) as char];
    if n < 10 then d else ShowNat(n / 10) + d
  }

  function ShowInt(n: int): (r: string)
    ensures |r| > 0 && IsDigit(r[|r| - 1])
    ensures forall i :: 0 <= i < |r| ==> IsDigit(r[i]) || r[i] == '-'
  {
    if n < 0 then "-" + ShowNat(-n) else ShowNat(n)
  }

  /** `str(n)` holds nothing but digits and `'-'`. */
  lemma ShowIntAvoids(n: int, c: char)
    requires !IsDigit(c) && c != '-'
    ensures c !in ShowInt(n)
  {
    var r := ShowInt(n);
    forall i | 0 <= i < |r| ensures r[i] != c {
      assert IsDigit(r[i]) || r[i] == '-';
    }
  }

  lemma {:induction false} ShowNatValue(n: nat)
    ensures DecimalValue(ShowNat(n)) == n
  {
    var s := ShowNat(n);
    if n >= 10 {
      ShowNatValue(n / 10);
      assert s[..|s| - 1] == ShowNat(n / 10);
    }
  }

  /** Digits, signs and angle brackets are not whitespace of either kind. */
  lemma NotWhitespace(c: char)
    requires IsDigit(c) || c == '-' || c == '<' || c == '>'
    ensures c !in Whitespace && c !in IntSpace
  {
  }

  /** Stripping a string whose ends are outside `chars` changes nothing. */
  lemma StripUntouched(s: string, chars: string)
    requires s != [] && s[0] !in chars && s[|s| - 1] !in chars
    ensures Strip(s, chars) == s
  {
    assert SkipLeft(s, chars, 0) == 0;
    assert SkipRight(s, chars, |s|, 0) == |s|;
  }

  /** The digits `str()` prints are one digit group worth the number printed. */
  lemma ShowNatGroups(m: nat)
    ensures DigitGroups(ShowNat(m)) && GroupsValue(ShowNat(m)) == m
  {
    var digits := ShowNat(m);
    ShowNatValue(m);
    assert '_' !in digits;
    RemoveAllAbsent(digits, '_');
  }

  /** `str(n)` has no whitespace to strip. */
  lemma ShowIntStripped(n: int)
    ensures Strip(ShowInt(n), IntSpace) == ShowInt(n)
  {
    var s := ShowInt(n);
    NotWhitespace(s[0]);
    NotWhitespace(s[|s| - 1]);
    StripUntouched(s, IntSpace);
  }

  /** The literal `str(n)` prints reads back as `n`. */
  lemma ParseLiteralShowInt(n: int)
    ensures ParseLiteral(ShowInt(n)) == Some(n)
  {
    var m: nat := if n < 0 then -n else n;
    ShowNatGroups(m);
    var s := ShowInt(n);
    if n < 0 {
      assert s[1..] == ShowNat(m);
    } else {
      assert s[0] != '+' && s[0] != '-';
    }
  }

  /** `int(str(n)) == n`. */
  lemma ParseShowInt(n: int)
    ensures ParseInt(ShowInt(n)) == Some(n)
  {
    ShowIntStripped(n);
    ParseLiteralShowInt(n);
  }

  /** A file separator before the digits is rejected: `int()` does not skip `'\x1c'`,
      although `str.strip()` would. */
  lemma ParseIntSeparator()
    ensures ParseInt("\U{1C}2") == None
  {
    var s := "\U{1C}2";
    assert s[0] !in IntSpace;
    StripUntouched(s, IntSpace);
  }

  /** Nor after a non-ASCII space, which `int()` does skip. */
  lemma ParseIntSpaceSeparator()
    ensures ParseInt("\U{A0}\U{1C}2") == None
  {
    var s := "\U{A0}\U{1C}2";
    assert s[0] in IntSpace && s[1] !in IntSpace;
    assert SkipLeft(s, IntSpace, 1) == 1;
    assert s[2] !in IntSpace by { NotWhitespace('2'); }
    assert SkipRight(s, IntSpace, 3, 1) == 3;
    assert s[1..3] == "\U{1C}2";
  }

  /** A no-break space around the digits is skipped. */
  lemma ParseIntNoBreakSpace()
    ensures ParseInt("\U{A0}2") == Some(2)
  {
    NoBreakSpaceStripped();
    ParseLiteralTwo();
  }

  lemma ParseLiteralTwo()
    ensures ParseLiteral("2") == Some(2)
  {
    RemoveAllAbsent("2", '_');
  }

  lemma NoBreakSpaceStripped()
    ensures Strip("\U{A0}2", IntSpace) == "2"
  {
    var s := "\U{A0}2";
    assert s[0] in IntSpace;
    assert s[1] !in IntSpace by { NotWhitespace('2'); }
    assert SkipLeft(s, IntSpace, 0) == 1;
    assert SkipRight(s, IntSpace, 2, 1) == 2;
    assert s[1..2] == "2";
  }
}
