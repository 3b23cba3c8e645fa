/** Choosing a file name that no file in a directory has: the number in each name
    is parsed, and the new name is printed from one more than the largest. */
module FileName {
  import opened Bits
  const BUFFER: nat := 32

  predicate IsDigit(c: char) {
    '0' <= c <= '9'
  }

  function Digit(c: char): (d: nat)
    requires IsDigit(c)
    ensures d < 10
  {
    c as int - '0' as int
  }

  /** The number a string's digits make in 32 bits, other characters ignored. */
  function Value(s: string): (v: nat)
    ensures v < WORD
  {
    if s == [] then 0
    else
      var c, v := s[|s| - 1], Value(s[..|s| - 1]);
      if IsDigit(c) then (v * 10 + Digit(c)) % WORD else v
  }

  /** It is built up character by character: a digit is appended, anything else
      changes nothing, wherever it stands. */
  lemma ValueStep(s: string, c: char)
    ensures Value("") == 0
    ensures Value(s + [c]) == if '0' <= c <= '9' then (10 * Value(s) + (c as int - '0' as int)) % 0x1_0000_0000
                              else Value(s)
  {
    assert (s + [c])[..|s|] == s;
  }

  /** The digits of a string, in order, with everything else removed. */
  ghost function DigitsIn(s: string): seq<nat> {
    if s == [] then []
    else if '0' <= s[0] <= '9' then [s[0] as int - '0' as int] + DigitsIn(s[1..])
    else DigitsIn(s[1..])
  }

  /** The decimal number that digits make. */
  ghost function Number(ds: seq<nat>): nat {
    if ds == [] then 0 else 10 * Number(ds[..|ds| - 1]) + ds[|ds| - 1]
  }

  lemma {:induction false} DigitsNext(s: string, c: char)
    ensures DigitsIn(s + [c]) == DigitsIn(s) + if '0' <= c <= '9' then [c as int - '0' as int] else []
  {
    if s == [] {
      assert [c][1..] == [];
    } else {
      assert (s + [c])[1..] == s[1..] + [c];
      DigitsNext(s[1..], c);
    }
  }

  lemma NumberNext(ds: seq<nat>, d: nat)
    ensures Number(ds + [d]) == 10 * Number(ds) + d
  {
    assert (ds + [d])[..|ds|] == ds;
  }

  lemma WrapOnce(a: nat, d: nat)
    ensures (10 * (a % WORD) + d) % WORD == (10 * a + d) % WORD
  {
    var q, r := a / WORD, a % WORD;
    assert 10 * a + d == WORD * (10 * q) + (10 * r + d);
    WrapMultiple(10 * q, 10 * r + d);
  }

  lemma {:induction false} WrapMultiple(q: nat, x: nat)
    ensures (WORD * q + x) % WORD == x % WORD
  {
    if q > 0 {
      WrapMultiple(q - 1, x);
      assert WORD * q + x == WORD * (q - 1) + x + WORD;
    }
  }

  /** The number is that of the digits alone, kept to 32 bits. */
  lemma {:induction false} ValueOfDigits(s: string)
    ensures Value(s) == Number(DigitsIn(s)) % 0x1_0000_0000
  {
    if s != [] {
      ValueOfDigits(s[..|s| - 1]);
      assert s == s[..|s| - 1] + [s[|s| - 1]];
      DigitAppended(s[..|s| - 1], s[|s| - 1]);
    }
  }

  lemma DigitAppended(t: string, c: char)
    requires Value(t) == Number(DigitsIn(t)) % WORD
    ensures Value(t + [c]) == Number(DigitsIn(t + [c])) % WORD
  {
    ValueStep(t, c);
    DigitsNext(t, c);
    var n, d := Number(DigitsIn(t)), c as int - '0' as int;
    if '0' <= c <= '9' {
      NumberNext(DigitsIn(t), d);
      WrapOnce(n, d);
    } else {
      assert DigitsIn(t) + [] == DigitsIn(t);
    }
  }

  /** The part of a name before its first dot. */
  function Stem(s: string): (t: string)
    ensures |t| <= |s|
  {
    if s == [] || s[0] == '.' then [] else [s[0]] + Stem(s[1..])
  }

  /** A name the parser can take: C's string terminator is not in it, and its stem
      fits the parser's buffer. */
  predicate Legal(s: string) {
    '\0' !in s && |Stem(s)| < BUFFER
  }

  lemma {:induction false} StemOf(t: string, more: string)
    requires '.' !in t && (more == [] || more[0] == '.')
    ensures Stem(t + more) == t
  {
    if t == [] {
      assert t + more == more;
    } else {
      assert (t + more)[1..] == t[1..] + more;
      StemOf(t[1..], more);
    }
  }

  lemma StemPrefixOf(s: string)
    ensures Stem(s) == s[..|Stem(s)|] && (|Stem(s)| < |s| ==> s[|Stem(s)|] == '.')
    ensures forall i :: 0 <= i < |Stem(s)| ==> s[i] != '.'
  {
  }

  /** `a2i`: copies the stem into a zeroed buffer and reads its digits, whatever
      stands between them. */
  method A2i(str: string) returns (ret: nat)
    requires Legal(str)
    ensures ret == Number(DigitsIn(Stem(str))) % 0x1_0000_0000
    ensures ret == Value(Stem(str))
  {
    StemPrefixOf(str);
    ValueOfDigits(Stem(str));
    var buf := new char[BUFFER](_ => '\0');
    var indx := 0;
    while indx < |str|
      invariant 0 <= indx <= |Stem(str)|
      invariant buf[..indx] == str[..indx]
      invariant forall i :: indx <= i < BUFFER ==> buf[i] == '\0'
    {
      if str[indx] == '.' {
        break;
      }
      buf[indx] := str[indx];
      indx := indx + 1;
    }
    assert str[..indx] == Stem(str);
    ret := ReadNumber(buf, Stem(str));
  }

  /** The second loop, over a buffer that holds t and is zero behind it. */
  method ReadNumber(buf: array<char>, ghost t: string) returns (ret: nat)
    requires |t| < buf.Length && buf[..|t|] == t && '\0' !in t
    requires forall i :: |t| <= i < buf.Length ==> buf[i] == '\0'
    ensures ret == Value(t)
  {
    var indx := 0;
    ret := 0;
    while buf[indx] != '\0'
      invariant 0 <= indx <= |t| && ret == Value(t[..indx])
      decreases |t| - indx
    {
      assert indx < |t| && buf[..|t|][indx] == t[indx] && t[..indx + 1][..indx] == t[..indx];
      if IsDigit(buf[indx]) {
        ret := (ret * 10 + Digit(buf[indx])) % WORD;
      }
      indx := indx + 1;
    }
    assert t[..indx] == t;
  }

  function DigitChar(d: nat): (c: char)
    requires d < 10
    ensures IsDigit(c) && Digit(c) == d
  {
    ('0' as int + d) as char
  }

  /** `%d` of a non-negative number. */
  function Decimal(n: nat): (s: string)
    ensures |s| > 0 && forall c :: c in s ==> IsDigit(c)
  {
    if n < 10 then [DigitChar(n)] else Decimal(n / 10) + [DigitChar(n % 10)]
  }

  /** The decimal numeral of a number: digits only, none leading that is zero. */
  ghost predicate Numeral(s: string, n: nat) {
    && |s| > 0 && (forall c :: c in s ==> '0' <= c <= '9') && (|s| > 1 ==> s[0] != '0')
    && Number(DigitsIn(s)) == n
  }

  lemma {:induction false} DecimalNumeral(n: nat)
    ensures Numeral(Decimal(n), n) && (n > 0 ==> Decimal(n)[0] != '0')
  {
    if n < 10 {
      assert DigitsIn([DigitChar(n)][1..]) == [];
      NumberNext([], n);
      assert DigitsIn(Decimal(n)) == [n] == [] + [n];
    } else {
      var q, d := n / 10, n % 10;
      DecimalNumeral(q);
      DigitsNext(Decimal(q), DigitChar(d));
      NumberNext(DigitsIn(Decimal(q)), d);
    }
  }

  /** `%d` of a 32-bit word, which C prints as a signed number. */
  function Printed(n: nat): string
    requires n < WORD
  {
    if n < HALF then Decimal(n) else "-" + Decimal(WORD - n)
  }

  function Name(n: nat): string
    requires n < WORD
  {
    "h" + Printed(n) + ".264"
  }

  lemma ValueDigit(s: string, d: nat)
    requires d < 10
    ensures Value(s + [DigitChar(d)]) == (Value(s) * 10 + d) % WORD
  {
    assert (s + [DigitChar(d)])[..|s|] == s;
  }

  lemma LastDigit(n: nat)
    requires n < WORD
    ensures n / 10 * 10 + n % 10 == n && (n / 10 * 10 + n % 10) % WORD == n
  {
  }

  /** Reading back a printed number. */
  lemma {:induction false} DecimalValue(pre: string, n: nat)
    requires n < WORD && Value(pre) == 0
    ensures Value(pre + Decimal(n)) == n
  {
    if n < 10 {
      ValueDigit(pre, n);
    } else {
      var q, d := n / 10, n % 10;
      DecimalValue(pre, q);
      NextDigit(pre + Decimal(q), q, d);
      LastDigit(n);
      assert pre + Decimal(n) == pre + Decimal(q) + [DigitChar(d)];
    }
  }

  lemma NextDigit(s: string, q: nat, d: nat)
    requires Value(s) == q && d < 10 && q * 10 + d < WORD
    ensures Value(s + [DigitChar(d)]) == q * 10 + d
  {
    ValueDigit(s, d);
  }

  function Ten(k: nat): nat {
    if k == 0 then 1 else 10 * Ten(k - 1)
  }

  lemma {:induction false} DecimalLength(n: nat, k: nat)
    requires n < Ten(k) && k > 0
    ensures |Decimal(n)| <= k
  {
    if n >= 10 {
      DecimalLength(n / 10, k - 1);
    }
  }

  lemma WordLength(n: nat)
    requires n < WORD
    ensures |Decimal(n)| <= 10
  {
    assert Ten(5) == 100_000;
    assert Ten(10) == 100_000 * Ten(5);
    DecimalLength(n, 10);
  }

  /** The number printed for n, without its sign. */
  function Shown(n: nat): nat
    requires n < WORD
  {
    if n < HALF then n else WORD - n
  }

  lemma Prefixes()
    ensures Value("h") == 0 && Value("h-") == 0
  {
    assert "h-"[..1] == "h" && "h"[..0] == "";
  }

  /** Parsing a name made of a short prefix and a number gives the number. */
  lemma PrefixedValue(pre: string, n: nat)
    requires n < WORD && |pre| <= 2 && '.' !in pre && '\0' !in pre && Value(pre) == 0
    ensures Legal(pre + Decimal(n) + ".264") && Value(Stem(pre + Decimal(n) + ".264")) == n
  {
    StemOf(pre + Decimal(n), ".264");
    WordLength(n);
    DecimalValue(pre, n);
  }

  /** Parsing the name made for n gives the number shown in it, so n itself below 2^31. */
  lemma NameValue(n: nat)
    requires n < WORD
    ensures Legal(Name(n)) && Value(Stem(Name(n))) == Shown(n)
  {
    Prefixes();
    if n < HALF {
      PrefixedValue("h", n);
    } else {
      PrefixedValue("h-", WORD - n);
      assert Name(n) == "h-" + Decimal(WORD - n) + ".264";
    }
  }

  /** What reading the next directory entry gives. */
  datatype Entry = Entry(fname: string) | Error

  /** The names a scan sees: those before the first error or empty name. */
  function Scanned(entries: seq<Entry>): seq<string> {
    if entries == [] || entries[0].Error? || entries[0].fname == "" then []
    else [entries[0].fname] + Scanned(entries[1..])
  }

  /** The largest number in the names. */
  function Largest(names: seq<string>): (m: nat)
    ensures m < WORD
  {
    if names == [] then 0
    else
      var m, v := Largest(names[..|names| - 1]), Value(Stem(names[|names| - 1]));
      if m > v then m else v
  }

  lemma {:induction false} LargestBounds(names: seq<string>)
    ensures forall n :: n in names ==> Value(Stem(n)) <= Largest(names)
  {
    if names != [] {
      LargestBounds(names[..|names| - 1]);
      assert names == names[..|names| - 1] + [names[|names| - 1]];
    }
  }

  function After(m: nat): (n: nat)
    requires m < WORD
    ensures n < WORD
  {
    (m + 1) % WORD
  }

  lemma ShownAfter(m: nat)
    requires m < WORD
    ensures Shown(After(m)) > m <==> m < HALF
  {
  }

  /** It is one of the numbers, or zero. */
  lemma {:induction false} LargestTaken(names: seq<string>)
    ensures Largest(names) == 0 || exists n :: n in names && Value(Stem(n)) == Largest(names)
  {
    if names != [] {
      LargestTaken(names[..|names| - 1]);
      assert names == names[..|names| - 1] + [names[|names| - 1]];
      assert names[|names| - 1] in names;
    }
  }

  /** The scan ends at the first error or empty name, and no sooner. */
  lemma {:induction false} ScannedPrefix(entries: seq<Entry>)
    ensures var s := Scanned(entries);
      && |s| <= |entries| && (forall i :: 0 <= i < |s| ==> entries[i] == Entry(s[i]) && s[i] != "")
      && (|s| < |entries| ==> entries[|s|].Error? || entries[|s|].fname == "")
  {
    if entries != [] && !entries[0].Error? && entries[0].fname != "" {
      ScannedPrefix(entries[1..]);
    }
  }

  lemma LargestNext(names: seq<string>, n: string)
    ensures Largest(names + [n]) == if Largest(names) > Value(Stem(n)) then Largest(names) else Value(Stem(n))
  {
    assert (names + [n])[..|names|] == names;
  }

  /** One more entry seen. */
  lemma ScanStep(entries: seq<Entry>, i: nat, seen: seq<string>)
    requires i < |entries| && !entries[i].Error? && entries[i].fname != ""
    requires Scanned(entries) == seen + Scanned(entries[i..])
    ensures Scanned(entries) == seen + [entries[i].fname] + Scanned(entries[i + 1..])
    ensures entries[i].fname in Scanned(entries)
  {
    var n := entries[i].fname;
    assert entries[i..][1..] == entries[i + 1..];
    assert Scanned(entries) == seen + [n] + Scanned(entries[i + 1..]);
    assert n in [n];
  }

  /** The scan of the directory keeps the largest number it has seen. */
  method ScanDirectory(entries: seq<Entry>) returns (indx: nat)
    requires forall n :: n in Scanned(entries) ==> Legal(n)
    ensures indx == Largest(Scanned(entries))
    ensures forall n :: n in Scanned(entries) ==> Value(Stem(n)) <= indx
    ensures indx == 0 || exists n :: n in Scanned(entries) && Value(Stem(n)) == indx
  {
    indx := 0;
    ghost var seen: seq<string> := [];
    var i := 0;
    while i < |entries| && !entries[i].Error? && entries[i].fname != ""
      invariant 0 <= i <= |entries|
      invariant Scanned(entries) == seen + Scanned(entries[i..])
      invariant indx == Largest(seen)
    {
      var fname := entries[i].fname;
      ScanStep(entries, i, seen);
      var v := A2i(fname);
      LargestNext(seen, fname);
      seen := seen + [fname];
      indx := if indx > v then indx else v;
      i := i + 1;
    }
    assert Scanned(entries[i..]) == [] && seen + [] == seen;
    LargestBounds(seen);
    LargestTaken(seen);
  }

  /** `creat_h264_file` up to opening the file: the index is one more than the
      largest scanned, and below 2^31 no scanned name has the new name's number,
      let alone the name itself. */
  method CreatH264File(entries: seq<Entry>) returns (name: string, indx: nat)
    requires forall n :: n in Scanned(entries) ==> Legal(n)
    ensures indx == (Largest(Scanned(entries)) + 1) % 0x1_0000_0000 && name == Name(indx)
    ensures Shows(name, indx)
    ensures Largest(Scanned(entries)) < HALF ==>
              name !in Scanned(entries) && forall n :: n in Scanned(entries) ==> Value(Stem(n)) < Value(Stem(name))
  {
    indx := ScanDirectory(entries);
    ghost var m, names := indx, Scanned(entries);
    NextIsNew(names);
    indx := (indx + 1) % WORD;
    assert indx == After(m) && Name(indx) == Name(After(Largest(names)));
    name := "h" + Printed(indx) + ".264";
    NameParts(indx);
  }

  /** An h, a minus sign from 2^31 on, the numeral of the number as a signed one,
      and the suffix. */
  ghost predicate Shows(name: string, n: nat)
    requires n < 0x1_0000_0000
  {
    && |name| > 5 && name[0] == 'h' && name[|name| - 4..] == ".264"
    && if n < 0x8000_0000 then Numeral(name[1..|name| - 4], n)
       else |name| > 6 && name[1] == '-' && Numeral(name[2..|name| - 4], 0x1_0000_0000 - n)
  }

  lemma Framed(pre: string, k: string)
    ensures var name := pre + k + ".264";
      name[|name| - 4..] == ".264" && name[|pre|..|name| - 4] == k && name[..|pre|] == pre
  {
  }

  lemma NextIsNew(names: seq<string>)
    ensures Largest(names) < HALF ==>
              Name(After(Largest(names))) !in names
              && forall n :: n in names ==> Value(Stem(n)) < Value(Stem(Name(After(Largest(names)))))
  {
    LargestBounds(names);
    ShownAfter(Largest(names));
    NameValue(After(Largest(names)));
  }

  lemma NameParts(n: nat)
    requires n < WORD
    ensures Shows(Name(n), n)
  {
    if n < HALF {
      DecimalNumeral(n);
      Framed("h", Decimal(n));
    } else {
      DecimalNumeral(WORD - n);
      Framed("h-", Decimal(WORD - n));
      assert Name(n) == "h-" + Decimal(WORD - n) + ".264";
    }
  }

  /** The new name is fresh in every directory with largest number m exactly when
      m is below 2^31: from there on the index is printed as a negative number,
      or wraps to zero, and some such directory already has the name. */
  lemma FreshExactly(m: nat)
    requires m < WORD
    ensures (forall names: seq<string> :: (forall n :: n in names ==> Legal(n)) && Largest(names) == m ==>
               Name(After(m)) !in names) <==> m < HALF
  {
    NameValue(After(m));
    ShownAfter(m);
    forall names: seq<string> | m < HALF && Largest(names) == m
      ensures Name(After(m)) !in names
    {
      LargestBounds(names);
    }
    if m >= HALF {
      Collides(m);
    }
  }

  lemma LargestOfTwo(a: string, b: string)
    ensures Largest([a, b]) == if Value(Stem(a)) > Value(Stem(b)) then Value(Stem(a)) else Value(Stem(b))
  {
    assert [a, b][..1] == [a] && [a][..0] == [];
    assert Largest([a]) == Value(Stem(a));
  }

  /** The directory with that name and one that has the number m. */
  lemma Collides(m: nat)
    requires HALF <= m < WORD
    ensures var names := [Name(After(m)), "h" + Decimal(m) + ".264"];
      (forall n :: n in names ==> Legal(n)) && Largest(names) == m && Name(After(m)) in names
  {
    Prefixes();
    NameValue(After(m));
    ShownAfter(m);
    PrefixedValue("h", m);
    LargestOfTwo(Name(After(m)), "h" + Decimal(m) + ".264");
  }
}
