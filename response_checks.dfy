/**
 * The checks `download_game_bucket` (src/download.rs) applies to a chunk response before and
 * after streaming it: the `Content-Lengths` header against the bucket's drops, and the
 * computed digests against the manifest checksums, a comparison that is only logged.
 */
module ResponseChecks {
  import opened Results
  import opened Models

  /** `str::split` on one separator character: the pieces between separators; "" is one empty piece. */
  function Split(s: string, sep: char): (parts: seq<string>)
    ensures |parts| >= 1
    ensures forall i :: 0 <= i < |parts| ==> sep !in parts[i]
    decreases |s|
  {
    if s == [] then [[]]
    else if s[0] == sep then [[]] + Split(s[1..], sep)
    else
      var rest := Split(s[1..], sep);
      [[s[0]] + rest[0]] + rest[1..]
  }

  /** The pieces written back with the separator between them. */
  function Join(parts: seq<string>, sep: char): string
    requires |parts| >= 1
    decreases |parts|
  {
    if |parts| == 1 then parts[0] else parts[0] + [sep] + Join(parts[1..], sep)
  }

  /** Splitting loses nothing: the pieces join back to the original string. */
  lemma {:induction false} SplitJoin(s: string, sep: char)
    ensures Join(Split(s, sep), sep) == s
    decreases |s|
  {
    if s != [] {
      SplitJoin(s[1..], sep);
      var rest := Split(s[1..], sep);
      if s[0] == sep {
        assert Split(s, sep)[1..] == rest;
      } else if |rest| == 1 {
        assert Join(Split(s, sep), sep) == [s[0]] + rest[0];
      } else {
        var parts := Split(s, sep);
        assert parts[1..] == rest[1..];
        assert Join(rest, sep) == rest[0] + [sep] + Join(rest[1..], sep);
      }
    }
  }

  /** Splitting a string whose first piece `a` has no separator. */
  lemma {:induction false} SplitAppend(a: string, t: string, sep: char)
    requires sep !in a
    ensures Split(a + t, sep) == [a + Split(t, sep)[0]] + Split(t, sep)[1..]
    decreases |a|
  {
    if a != [] {
      assert (a + t)[1..] == a[1..] + t;
      assert (a + t)[0] == a[0];
      SplitAppend(a[1..], t, sep);
      assert [a[0]] + (a[1..] + Split(t, sep)[0]) == a + Split(t, sep)[0];
    } else {
      var parts := Split(t, sep);
      assert a + t == t;
      assert a + parts[0] == parts[0];
      assert parts == [parts[0]] + parts[1..];
    }
  }

  /** A piece without the separator is split off whole. */
  lemma {:induction false} SplitPiece(a: string, t: string, sep: char)
    requires sep !in a
    ensures Split(a + [sep] + t, sep) == [a] + Split(t, sep)
  {
    SplitAppend(a, [sep] + t, sep);
    assert a + [sep] + t == a + ([sep] + t);
    assert ([sep] + t)[1..] == t;
    assert a + [] == a;
  }

  /** A string without the separator is a single piece. */
  lemma {:induction false} SplitWhole(a: string, sep: char)
    requires sep !in a
    ensures Split(a, sep) == [a]
  {
    SplitAppend(a, [], sep);
    assert a + [] == a;
  }

  /** Pieces without the separator split back out of their join. */
  lemma {:induction false} JoinSplit(parts: seq<string>, sep: char)
    requires |parts| >= 1 && forall i :: 0 <= i < |parts| ==> sep !in parts[i]
    ensures Split(Join(parts, sep), sep) == parts
    decreases |parts|
  {
    if |parts| == 1 {
      SplitAppend(parts[0], [], sep);
      assert parts[0] + [] == parts[0];
    } else {
      JoinSplit(parts[1..], sep);
      var t := [sep] + Join(parts[1..], sep);
      assert Join(parts, sep) == parts[0] + t;
      SplitAppend(parts[0], t, sep);
      assert t[1..] == Join(parts[1..], sep);
      assert Split(t, sep) == [[]] + parts[1..];
      assert parts[0] + [] == parts[0];
      assert parts == [parts[0]] + parts[1..];
    }
  }

  /** `usize::MAX` on the 64-bit targets the client is built for. */
  const USIZE_MAX: nat := 0x1_0000_0000_0000_0000 - 1

  predicate IsDigit(c: char)
  {
    '0' <= c <= '9'
  }

  predicate AllDigits(s: string)
  {
    forall i :: 0 <= i < |s| ==> IsDigit(s[i])
  }

  function DigitValue(c: char): nat
    requires IsDigit(c)
  {
    c as int - '0' as int
  }

  /** The number a string of decimal digits denotes, leading zeros allowed. */
  function DigitsValue(s: string): nat
    requires AllDigits(s)
  {
    if s == [] then 0 else DigitsValue(s[..|s| - 1]) * 10 + DigitValue(s[|s| - 1])
  }

  /**
   * `str::parse::<usize>`: an optional leading '+', then at least one decimal digit and
   * nothing else, denoting a value that fits in a `usize`.
   */
  function ParseUsize(s: string): (r: Option<nat>)
    ensures r.Some? ==> r.value <= USIZE_MAX
    ensures r.Some? ==> |s| >= 1 && (IsDigit(s[0]) || s[0] == '+') && AllDigits(s[1..])
  {
    var digits := if |s| > 0 && s[0] == '+' then s[1..] else s;
    if digits == [] || !AllDigits(digits) then None
    else
      var v := DigitsValue(digits);
      if v > USIZE_MAX then None else Some(v)
  }

  /** The value the client takes for one header entry: anything that does not parse reads as 0. */
  function ReadLength(raw: string): (n: nat)
    ensures n <= USIZE_MAX
    ensures ParseUsize(raw).None? ==> n == 0
    ensures n != 0 ==> |raw| >= 1 && (IsDigit(raw[0]) || raw[0] == '+') && AllDigits(raw[1..])
  {
    ParseUsize(raw).GetOr(0)
  }

  function DigitChar(d: nat): (c: char)
    requires d < 10
    ensures IsDigit(c) && DigitValue(c) == d
  {
    ('0' as int + d) as char
  }

  /** The decimal form of `n`, as a server writes it into the header. */
  function Decimal(n: nat): (s: string)
    ensures |s| >= 1 && AllDigits(s)
  {
    if n < 10 then [DigitChar(n)] else Decimal(n / 10) + [DigitChar(n % 10)]
  }

  lemma {:induction false} DecimalValue(n: nat)
    ensures DigitsValue(Decimal(n)) == n
  {
    if n >= 10 {
      DecimalValue(n / 10);
      var s := Decimal(n);
      assert s[..|s| - 1] == Decimal(n / 10);
    }
  }

  /** Every `usize` written in decimal, with or without a leading '+', parses back to itself. */
  lemma {:induction false} ParseDecimal(n: nat)
    requires n <= USIZE_MAX
    ensures ParseUsize(Decimal(n)) == Some(n)
    ensures ParseUsize(['+'] + Decimal(n)) == Some(n)
  {
    DecimalValue(n);
    assert (['+'] + Decimal(n))[1..] == Decimal(n);
  }

  /** The strings the parser refuses: the empty one, '+' alone, and a value past `usize::MAX`. */
  lemma {:induction false} ParseRejects(n: nat)
    requires n > USIZE_MAX
    ensures ParseUsize("") == None && ParseUsize("+") == None
    ensures ParseUsize(Decimal(n)) == None
  {
    DecimalValue(n);
  }

  /** A negative number, a padded one and a word do not parse, so they read as 0. */
  lemma UnparsableScenarios()
    ensures ReadLength("-5") == 0
    ensures ReadLength(" 5") == 0
    ensures ReadLength("abc") == 0
  {
    assert !IsDigit("-5"[0]);
    assert !IsDigit(" 5"[0]);
    assert !IsDigit("abc"[0]);
  }

  /** A leading '+' and leading zeros are accepted. */
  lemma AcceptedScenarios()
    ensures ReadLength("+17") == 17
    ensures ReadLength("007") == 7
  {
    assert DigitsValue("1") == 1 by { assert "1"[..0] == ""; }
    assert DigitsValue("0") == 0 by { assert "0"[..0] == ""; }
    assert DigitsValue("00") == 0 by { assert "00"[..1] == "0"; }
    assert "+17"[1..] == "17";
    assert "17"[..1] == "1";
    assert "007"[..2] == "00";
  }

  /** Why a header is refused: it lists more lengths than the bucket has drops, or one length differs. */
  datatype HeaderError =
    | CountMismatch(received: nat, header: string)
    | LengthMismatch(filename: string, expected: nat, raw: string, got: nat)

  /**
   * The header agrees with the drops when it lists no more entries than there are drops and
   * each entry, read as `ReadLength` reads it, is the length of the drop at its position.
   * Fewer entries than drops is accepted: the drops past the header's end are not checked.
   */
  predicate HeaderAgrees(entries: seq<string>, drops: seq<DownloadDrop>)
  {
    && |entries| <= |drops|
    && forall i :: 0 <= i < |entries| ==> ReadLength(entries[i]) == drops[i].length
  }

  /**
   * The header check: walk the comma-separated entries in order and stop at the first
   * entry without a drop or whose length differs from its drop's.
   */
  method CheckContentLengths(header: string, drops: seq<DownloadDrop>) returns (r: Result<(), HeaderError>)
    ensures r.Ok? <==> HeaderAgrees(Split(header, ','), drops)
    ensures r.Err? && r.error.CountMismatch? ==>
      var entries := Split(header, ',');
      && r.error == CountMismatch(|drops|, header)
      && |drops| < |entries|
      && HeaderAgrees(entries[..|drops|], drops)
    ensures r.Err? && r.error.LengthMismatch? ==>
      var entries := Split(header, ',');
      exists p :: (&& 0 <= p < |entries| && p < |drops|
                   && HeaderAgrees(entries[..p], drops)
                   && ReadLength(entries[p]) != drops[p].length
                   && r.error == LengthMismatch(drops[p].filename, drops[p].length, entries[p], ReadLength(entries[p])))
  {
    var entries := Split(header, ',');
    var i := 0;
    while i < |entries|
      invariant 0 <= i <= |entries|
      invariant i <= |drops|
      invariant HeaderAgrees(entries[..i], drops)
    {
      var rawLength := entries[i];
      var length := ReadLength(rawLength);
      if i >= |drops| {
        assert !HeaderAgrees(entries, drops);
        return Err(CountMismatch(i, header));
      }
      if drops[i].length != length {
        assert !HeaderAgrees(entries, drops);
        return Err(LengthMismatch(drops[i].filename, drops[i].length, rawLength, length));
      }
      assert entries[..i + 1] == entries[..i] + [entries[i]];
      i := i + 1;
    }
    assert entries[..i] == entries;
    return Ok(());
  }

  /** The header a well-behaved server sends: each drop's length in decimal, joined by commas. */
  function HeaderFor(drops: seq<DownloadDrop>): string
    requires |drops| >= 1
  {
    Join(DecimalLengths(drops), ',')
  }

  function DecimalLengths(drops: seq<DownloadDrop>): (parts: seq<string>)
    ensures |parts| == |drops|
    ensures forall i :: 0 <= i < |drops| ==> parts[i] == Decimal(drops[i].length)
  {
    if drops == [] then [] else DecimalLengths(drops[..|drops| - 1]) + [Decimal(drops[|drops| - 1].length)]
  }

  /** The header listing every drop's own length passes the check. */
  lemma {:induction false} HeaderForAgrees(drops: seq<DownloadDrop>)
    requires |drops| >= 1
    requires forall i :: 0 <= i < |drops| ==> drops[i].length <= USIZE_MAX
    ensures HeaderAgrees(Split(HeaderFor(drops), ','), drops)
  {
    var parts := DecimalLengths(drops);
    forall i, k | 0 <= i < |parts| && 0 <= k < |parts[i]|
      ensures parts[i][k] != ','
    {
      assert AllDigits(parts[i]);
      assert IsDigit(parts[i][k]);
    }
    JoinSplit(parts, ',');
    forall i | 0 <= i < |drops|
      ensures ReadLength(parts[i]) == drops[i].length
    {
      ParseDecimal(drops[i].length);
    }
  }

  /** A bucket without drops fails whatever the header says: splitting always yields an entry. */
  lemma {:induction false} NoDropsRejected(header: string)
    ensures !HeaderAgrees(Split(header, ','), [])
  {
  }

  /** Dropping entries from the end of an agreeing header leaves it agreeing. */
  lemma {:induction false} HeaderPrefixAgrees(entries: seq<string>, drops: seq<DownloadDrop>, k: nat)
    requires HeaderAgrees(entries, drops) && k <= |entries|
    ensures HeaderAgrees(entries[..k], drops)
  {
  }

  /** A drop of the given length, all other fields fixed, for the scenarios below. */
  function SizedDrop(length: nat): DownloadDrop
  {
    DownloadDrop(0, "f", Path("/", "f"), 0, length, "", 0)
  }

  lemma SmallValues()
    ensures ReadLength("10") == 10 && ReadLength("30") == 30
  {
    assert DigitsValue("1") == 1 by { assert "1"[..0] == ""; }
    assert DigitsValue("10") == 10 by { assert "10"[..1] == "1"; }
    assert DigitsValue("3") == 3 by { assert "3"[..0] == ""; }
    assert DigitsValue("30") == 30 by { assert "30"[..1] == "3"; }
  }

  /** Against drops of 10 and 20 bytes, a header listing only the first length passes. */
  lemma ShortHeaderScenario()
    ensures HeaderAgrees(Split("10", ','), [SizedDrop(10), SizedDrop(20)])
  {
    SmallValues();
    SplitWhole("10", ',');
  }

  /** Against drops of 10 and 20 bytes, a wrong second entry fails. */
  lemma WrongLengthScenario()
    ensures !HeaderAgrees(Split("10,30", ','), [SizedDrop(10), SizedDrop(20)])
  {
    SmallValues();
    assert "10,30" == "10" + [','] + "30";
    SplitWhole("30", ',');
    SplitPiece("10", "30", ',');
    var entries := Split("10,30", ',');
    assert entries == ["10", "30"];
    assert ReadLength(entries[1]) != SizedDrop(20).length;
  }

  /** Against drops of 10 and 20 bytes, a third entry fails on the count. */
  lemma ExtraEntryScenario()
    ensures !HeaderAgrees(Split("10,20,5", ','), [SizedDrop(10), SizedDrop(20)])
  {
    assert "10,20,5" == "10" + [','] + ("20" + [','] + "5");
    SplitWhole("5", ',');
    SplitPiece("20", "5", ',');
    SplitPiece("10", "20" + [','] + "5", ',');
  }

  /** Against a zero-length drop, a non-numeric entry passes: it reads as 0. */
  lemma NonNumericScenario()
    ensures HeaderAgrees(Split("x", ','), [SizedDrop(0)])
  {
    SplitWhole("x", ',');
    assert !IsDigit("x"[0]);
  }

  /**
   * The digest comparison: the positions whose computed digest, hex-encoded, differs from the
   * drop's manifest checksum. The client only logs these; it does not fail the bucket.
   */
  method DigestMismatches<Digest>(drops: seq<DownloadDrop>, digests: seq<Digest>, hex: Digest -> string)
    returns (mismatched: seq<nat>)
    requires |digests| >= |drops|
    ensures forall k :: 0 <= k < |drops| ==> (k in mismatched <==> hex(digests[k]) != drops[k].checksum)
    ensures forall k :: k in mismatched ==> k < |drops|
    ensures forall a, b :: 0 <= a < b < |mismatched| ==> mismatched[a] < mismatched[b]
  {
    mismatched := [];
    var index := 0;
    while index < |drops|
      invariant 0 <= index <= |drops|
      invariant forall k :: 0 <= k < index ==> (k in mismatched <==> hex(digests[k]) != drops[k].checksum)
      invariant forall a :: 0 <= a < |mismatched| ==> mismatched[a] < index
      invariant forall a, b :: 0 <= a < b < |mismatched| ==> mismatched[a] < mismatched[b]
    {
      var res := hex(digests[index]);
      if res != drops[index].checksum {
        mismatched := mismatched + [index];
      }
      index := index + 1;
    }
  }
}
