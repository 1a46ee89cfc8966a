/**
  Names of table files: a number of at least six digits and `.sst`, or `.sst.tmp`
  while it is written. Listing a directory reads the numbers back.
 */
module FileNames {
  import opened Bytes
  import opened Records

  const SUFFIX := ".sst"
  const WAL_NAME := "wal"
  const WAL_FLUSH_NAME := "wal.flush"

  // ---------------------------------------------------------------------
  // Writing and reading numbers
  // ---------------------------------------------------------------------

  function DigitOf(d: nat): char
    requires d < 10
  {
    '0' + d as char
  }

  predicate IsDigit(c: char) { '0' <= c <= '9' }

  /** Decimal digits, without leading zeros. */
  function Digits(n: nat): (s: string)
    ensures s != [] && forall i :: 0 <= i < |s| ==> IsDigit(s[i])
  {
    if n < 10 then [DigitOf(n)] else Digits(n / 10) + [DigitOf(n % 10)]
  }

  function Padding(k: nat): (s: string)
    ensures |s| == k && forall i :: 0 <= i < k ==> s[i] == '0'
  {
    if k == 0 then [] else ['0'] + Padding(k - 1)
  }

  /** At least six digits. */
  function Padded(n: nat): (s: string)
    ensures |s| >= 6 && forall i :: 0 <= i < |s| ==> IsDigit(s[i])
  {
    var s := Digits(n);
    if |s| < 6 then Padding(6 - |s|) + s else s
  }

  function Value(s: string): nat
    requires AllDigits(s)
  {
    if s == [] then 0
    else
      assert IsDigit(s[|s| - 1]);
      10 * Value(s[..|s| - 1]) + (s[|s| - 1] as int - '0' as int)
  }

  predicate AllDigits(s: string) { forall i :: 0 <= i < |s| ==> IsDigit(s[i]) }

  /** The text behind an optional plus sign. */
  function Unsigned(s: string): string { if s != [] && s[0] == '+' then s[1..] else s }

  /** Digits with an optional plus sign; nothing else, and nothing past 64 bits. */
  function ParseNumber(s: string): Option<nat> {
    var digits := Unsigned(s);
    if digits == [] || !AllDigits(digits) || Value(digits) >= U64_LIMIT then None else Some(Value(digits))
  }

  lemma {:induction false} ValueOfDigits(n: nat)
    ensures Value(Digits(n)) == n
  {
    if n >= 10 {
      ValueOfDigits(n / 10);
      assert Digits(n)[..|Digits(n)| - 1] == Digits(n / 10);
    }
  }

  lemma {:induction false} LeadingZeros(k: nat, s: string)
    requires forall i :: 0 <= i < |s| ==> IsDigit(s[i])
    ensures forall i :: 0 <= i < k + |s| ==> IsDigit((Padding(k) + s)[i])
    ensures Value(Padding(k) + s) == Value(s)
  {
    if s != [] {
      LeadingZeros(k, s[..|s| - 1]);
      assert (Padding(k) + s)[..k + |s| - 1] == Padding(k) + s[..|s| - 1];
    } else if k > 0 {
      LeadingZeros(k - 1, []);
      assert Padding(k) + [] == Padding(k);
      AllZeros(k);
    }
  }

  lemma {:induction false} AllZeros(k: nat)
    ensures Value(Padding(k)) == 0
  {
    if k > 0 {
      AllZeros(k - 1);
      assert Padding(k)[..k - 1] == Padding(k - 1);
    }
  }

  // ---------------------------------------------------------------------
  // File names
  // ---------------------------------------------------------------------

  function SstName(id: nat): string { Padded(id) + SUFFIX }

  function TmpName(id: nat): string { Padded(id) + ".sst.tmp" }

  /** The number of a table file's name, none for any other name. */
  function TableId(name: string): Option<nat> {
    if |name| < |SUFFIX| || name[|name| - |SUFFIX|..] != SUFFIX then None
    else ParseNumber(name[..|name| - |SUFFIX|])
  }

  lemma PaddedValue(id: nat)
    ensures Value(Padded(id)) == id
  {
    hide Value, Digits, Padding;
    ValueOfDigits(id);
    LeadingZeros(if |Digits(id)| < 6 then 6 - |Digits(id)| else 0, Digits(id));
  }

  /** A table file's name reads back as its number. */
  lemma NameRoundTrip(id: nat)
    requires id < U64_LIMIT
    ensures TableId(SstName(id)) == Some(id)
  {
    hide Value, Padded;
    var name := SstName(id);
    PaddedValue(id);
    assert name[|name| - |SUFFIX|..] == SUFFIX && name[..|name| - |SUFFIX|] == Padded(id);
    assert IsDigit(Padded(id)[0]);
  }

  /** Unfinished files and the logs are passed over. */
  lemma OtherNames(id: nat)
    ensures TableId(TmpName(id)) == None && TableId(WAL_NAME) == None && TableId(WAL_FLUSH_NAME) == None
  {
    var name := TmpName(id);
    assert name[|name| - 1] == 'p';
    assert name[|name| - 4..][3] == 'p' && SUFFIX[3] == 't';
    assert WAL_FLUSH_NAME[5..][3] == 'h';
  }

  /** A name the engine gives to a file of its directory. */
  ghost predicate EngineName(name: string, ids: set<nat>) {
    name == WAL_NAME || name == WAL_FLUSH_NAME || (exists id: nat :: name == TmpName(id))
    || (exists id :: id in ids && name == SstName(id))
  }

  /**
    Listing a directory that holds the engine's own files: the numbers found are exactly
    the table files', each from one name.
   */
  lemma ListsTheFiles(names: set<string>, ids: set<nat>)
    requires forall n :: n in names ==> EngineName(n, ids)
    requires forall id :: id in ids ==> id < U64_LIMIT && SstName(id) in names
    ensures forall id: nat :: id in ids <==> exists n :: n in names && TableId(n) == Some(id)
    ensures OneToOne(names)
  {
    hide TableId, SstName, TmpName;
    forall id | id in ids ensures TableId(SstName(id)) == Some(id) { NameRoundTrip(id); }
    forall n | n in names && TableId(n).Some? ensures TableId(n).value in ids && n == SstName(TableId(n).value) {
      OtherNames(0);
      if id: nat :| n == TmpName(id) { OtherNames(id); }
    }
  }

  // ---------------------------------------------------------------------
  // Every name of a number
  // ---------------------------------------------------------------------

  /** One way to write a table file's name: an optional sign, any leading zeros, the digits. */
  function Spelling(plus: bool, k: nat, id: nat): string {
    (if plus then "+" else "") + (Padding(k) + Digits(id)) + SUFFIX
  }

  lemma {:induction false} PaddingSnoc(k: nat)
    ensures Padding(k) + ['0'] == Padding(k + 1)
  {
    if k > 0 {
      PaddingSnoc(k - 1);
      assert Padding(k) + ['0'] == ['0'] + (Padding(k - 1) + ['0']);
    }
  }

  /** A text of digits is the number's digits behind some zeros. */
  lemma {:induction false} DigitText(s: string) returns (k: nat)
    requires s != [] && AllDigits(s)
    ensures s == Padding(k) + Digits(Value(s))
  {
    var init, c := s[..|s| - 1], s[|s| - 1];
    assert s == init + [c] && IsDigit(c);
    if init == [] {
      k := 0;
      assert Value(s) == c as int - '0' as int;
    } else {
      var j := DigitText(init);
      var v := Value(init);
      if v == 0 {
        k := j + 1;
        PaddingSnoc(j);
        assert init == Padding(j + 1);
      } else {
        k := j;
        assert Value(s) / 10 == v && Digits(Value(s)) == Digits(v) + [c];
      }
    }
  }

  lemma SpellingReads(plus: bool, k: nat, id: nat)
    requires id < U64_LIMIT
    ensures TableId(Spelling(plus, k, id)) == Some(id)
  {
    hide Value, Digits, Padding;
    var name, digits := Spelling(plus, k, id), Padding(k) + Digits(id);
    var stem := (if plus then "+" else "") + digits;
    LeadingZeros(k, Digits(id));
    ValueOfDigits(id);
    assert IsDigit(digits[0]);
    assert name[|name| - |SUFFIX|..] == SUFFIX && name[..|name| - |SUFFIX|] == stem;
    assert Unsigned(stem) == digits;
  }

  lemma NameIsSpelling(name: string) returns (plus: bool, k: nat)
    requires TableId(name).Some?
    ensures TableId(name).value < U64_LIMIT && name == Spelling(plus, k, TableId(name).value)
  {
    hide Value, Digits, Padding;
    var stem := name[..|name| - |SUFFIX|];
    plus := stem != [] && stem[0] == '+';
    k := DigitText(Unsigned(stem));
    assert stem == (if plus then "+" else "") + Unsigned(stem);
    assert name == stem + SUFFIX;
  }

  /** Exactly the names that read as a number. */
  lemma TableIdIff(name: string, id: nat)
    ensures TableId(name) == Some(id) <==> id < U64_LIMIT && exists plus, k :: name == Spelling(plus, k, id)
  {
    hide TableId, Spelling;
    if TableId(name) == Some(id) { var plus, k := NameIsSpelling(name); }
    if id < U64_LIMIT && exists plus, k :: name == Spelling(plus, k, id) {
      var plus, k :| name == Spelling(plus, k, id);
      SpellingReads(plus, k, id);
    }
  }

  /** The sign and the number of zeros can be read off a spelling. */
  lemma SpellingsDiffer(p: bool, j: nat, q: bool, k: nat, id: nat)
    requires Spelling(p, j, id) == Spelling(q, k, id)
    ensures p == q && j == k
  {
    hide Digits, Padding;
    var a, b := Padding(j) + Digits(id), Padding(k) + Digits(id);
    LeadingZeros(j, Digits(id));
    LeadingZeros(k, Digits(id));
    assert IsDigit(a[0]) && IsDigit(b[0]);
    var x, y := Spelling(p, j, id), Spelling(q, k, id);
    assert x[0] == if p then '+' else a[0];
    assert y[0] == if q then '+' else b[0];
    assert |x| == |y|;
  }

  /** Different names of the set have different numbers. */
  ghost predicate OneToOne(names: set<string>) {
    forall m, n :: m in names && n in names && TableId(m).Some? && TableId(m) == TableId(n) ==> m == n
  }

  /** No number is written in two ways. */
  ghost predicate OneSpelling(names: set<string>) {
    forall id: nat, p, j: nat, q, k: nat ::
      id < U64_LIMIT && Spelling(p, j, id) in names && Spelling(q, k, id) in names ==> p == q && j == k
  }

  /** Exactly which directories read one to one. */
  lemma OneToOneIff(names: set<string>)
    ensures OneToOne(names) <==> OneSpelling(names)
  {
    hide TableId, Spelling;
    if OneToOne(names) {
      forall id: nat, p, j: nat, q, k: nat
        | id < U64_LIMIT && Spelling(p, j, id) in names && Spelling(q, k, id) in names
        ensures p == q && j == k
      {
        SpellingReads(p, j, id);
        SpellingReads(q, k, id);
        SpellingsDiffer(p, j, q, k, id);
      }
    }
    if OneSpelling(names) {
      forall m, n | m in names && n in names && TableId(m).Some? && TableId(m) == TableId(n) ensures m == n {
        var p, j := NameIsSpelling(m);
        var q, k := NameIsSpelling(n);
      }
    }
  }

  lemma OnesSpellings()
    ensures Spelling(false, 0, 1) == "1.sst" && Spelling(true, 0, 1) == "+1.sst"
  {
    assert Digits(1) == "1" && Padding(0) == "";
  }

  lemma LongName(id: nat)
    ensures |SstName(id)| >= 10
  {
    hide Digits, Padding;
  }

  /** The name of a table file: its digits, filled up with zeros to six, and `.sst`; with `.tmp` behind it while written. */
  lemma NameShape(id: nat)
    ensures SstName(id) == Spelling(false, if |Digits(id)| < 6 then 6 - |Digits(id)| else 0, id)
    ensures TmpName(id) == SstName(id) + ".tmp"
  {
    hide Digits, Padding;
    assert Padding(0) == "";
  }

  lemma SixDigitNames()
    ensures SstName(7) == "000007.sst" && SstName(123456) == "123456.sst"
  {
    assert Padding(1) == "0" && Padding(2) == "00" && Padding(3) == "000" && Padding(4) == "0000" && Padding(5) == "00000";
    assert Digits(7) == "7";
    assert Digits(12) == "12" && Digits(123) == "123" && Digits(1234) == "1234" && Digits(12345) == "12345";
    assert Digits(123456) == "123456";
  }

  /** An instance: without padding, or with a sign, the number is the same. */
  lemma TwoNamesOneId()
    ensures TableId("1.sst") == TableId("+1.sst") == TableId(SstName(1)) == Some(1)
    ensures !OneToOne({"1.sst", SstName(1)})
  {
    hide TableId, Spelling, SstName;
    OnesSpellings();
    NameRoundTrip(1);
    SpellingReads(false, 0, 1);
    SpellingReads(true, 0, 1);
    LongName(1);
    assert |"1.sst"| < |SstName(1)|;
    var names := {"1.sst", SstName(1)};
    assert "1.sst" in names && SstName(1) in names;
  }
}
