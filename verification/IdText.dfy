/**
 Ids as the text the wire carries (internal/crdt/id.go:10-99). The rest of the model works
 on (site, clock) pairs; this module says for which texts that is faithful: those that
 `FormatID` writes. Other texts that parse to the same pair compare as equal though they
 are different map keys, and then arrival decides the order of siblings.
 */
module IdText {
  import opened Ids
  import opened Ops

  const MAX_INT64: int := 0x7FFF_FFFF_FFFF_FFFF

  predicate IsDigit(c: char) {
    '0' <= c <= '9'
  }

  predicate AllDigits(s: string) {
    forall i :: 0 <= i < |s| ==> IsDigit(s[i])
  }

  function DigitOf(n: nat): (c: char)
    requires n < 10
    ensures IsDigit(c)
  {
    '0' + n as char
  }

  /** Decimal digits without leading zeros. */
  function Digits(n: nat): (s: string)
    ensures s != "" && AllDigits(s) && (n > 0 ==> s[0] != '0')
  {
    if n < 10 then [DigitOf(n)] else Digits(n / 10) + [DigitOf(n % 10)]
  }

  function ValueOf(s: string): nat
    requires AllDigits(s)
  {
    if s == "" then 0 else 10 * ValueOf(s[..|s| - 1]) + (s[|s| - 1] - '0') as nat
  }

  /** `strconv.ParseInt(s, 10, 64)`: an optional sign, leading zeros welcome. */
  function ParseInt(s: string): Option<int> {
    if s == "" then None else
    var signed := s[0] == '+' || s[0] == '-';
    var rest := if signed then s[1..] else s;
    if rest == "" || !AllDigits(rest) then None else
    var size: int := ValueOf(rest);
    var v := if s[0] == '-' then -size else size;
    if -MAX_INT64 - 1 <= v <= MAX_INT64 then Some(v) else None
  }

  function Format(site: string, clock: nat): string {
    site + ":" + Digits(clock)
  }

  /** Index of the first colon, or the length. */
  function Colon(s: string): (i: nat)
    ensures i <= |s| && ':' !in s[..i] && (i < |s| ==> s[i] == ':')
  {
    if s == "" || s[0] == ':' then 0 else
    var i := 1 + Colon(s[1..]);
    assert s[..i] == [s[0]] + s[1..][..i - 1];
    i
  }

  function Parse(s: string): Option<Id> {
    var i := Colon(s);
    if i == 0 || i >= |s| - 1 then None else
    var clock := ParseInt(s[i + 1..]);
    if clock.None? || clock.value <= 0 then None else Some(Atom(s[..i], clock.value))
  }

  /** `CompareID`, the fallback of the sibling comparison for texts that do not parse. */
  function CompareText(a: string, b: string): int {
    if a == b then 0 else
    var p, q := Parse(a), Parse(b);
    if p.None? || q.None? then (if StrLess(a, b) then -1 else if StrLess(b, a) then 1 else 0)
    else if StrLess(p.value.site, q.value.site) then -1
    else if StrLess(q.value.site, p.value.site) then 1
    else if p.value.clock < q.value.clock then -1
    else if p.value.clock > q.value.clock then 1
    else 0
  }

  function CompareSiblingText(a: string, b: string): int {
    if a == b then 0 else
    var p, q := Parse(a), Parse(b);
    if p.None? || q.None? then CompareText(a, b)
    else if p.value.clock > q.value.clock then -1
    else if p.value.clock < q.value.clock then 1
    else if StrLess(p.value.site, q.value.site) then -1
    else if StrLess(q.value.site, p.value.site) then 1
    else 0
  }

  // ----- the round trip ------------------------------------------------------------------------

  lemma {:induction false} DigitsValue(n: nat)
    ensures ValueOf(Digits(n)) == n
  {
    if n >= 10 {
      DigitsValue(n / 10);
      var s := Digits(n);
      assert s[..|s| - 1] == Digits(n / 10);
    }
  }

  lemma {:induction false} ValueDigits(s: string)
    requires AllDigits(s) && s != "" && s[0] != '0'
    ensures ValueOf(s) > 0 && Digits(ValueOf(s)) == s
  {
    var n, init := |s|, s[..|s| - 1];
    var d := (s[n - 1] - '0') as nat;
    assert s == init + [s[n - 1]] && DigitOf(d) == s[n - 1];
    if n > 1 {
      ValueDigits(init);
      assert ValueOf(s) / 10 == ValueOf(init) && ValueOf(s) % 10 == d;
    } else {
      assert init == "";
    }
  }

  lemma ColonOf(site: string, tail: string)
    requires ':' !in site
    ensures Colon(site + ":" + tail) == |site|
    decreases |site|
  {
    var s := site + ":" + tail;
    if site != "" {
      assert s[1..] == site[1..] + ":" + tail;
      ColonOf(site[1..], tail);
    } else {
      assert s[0] == ':';
    }
  }

  /** What `FormatID` writes, `ParseID` reads back. */
  lemma FormatThenParse(site: string, clock: nat)
    requires ValidSite(site) && 0 < clock <= MAX_INT64
    ensures Parse(Format(site, clock)) == Some(Atom(site, clock))
  {
    var s := Format(site, clock);
    ColonOf(site, Digits(clock));
    assert s[..|site|] == site && s[|site| + 1..] == Digits(clock);
    DigitsValue(clock);
    assert IsDigit(Digits(clock)[0]);
  }

  /** A text that parses names a valid id. */
  lemma ParsedIsValid(s: string)
    requires Parse(s).Some?
    ensures ValidId(Parse(s).value) && Parse(s).value.clock <= MAX_INT64
  {
  }

  predicate Canonical(s: string) {
    Parse(s).Some? && Format(Parse(s).value.site, Parse(s).value.clock) == s
  }

  lemma FormatsBack(site: string, clock: nat, tail: string)
    ensures Format(site, clock) == site + ":" + tail <==> Digits(clock) == tail
  {
    hide Digits;
    assert Format(site, clock)[|site| + 1..] == Digits(clock) && (site + ":" + tail)[|site| + 1..] == tail;
  }

  /** A text that parses is canonical exactly if its clock starts with neither a sign nor a zero. */
  lemma CanonicalExactlyWhen(s: string)
    requires Parse(s).Some?
    ensures Canonical(s) <==> var c := s[Colon(s) + 1]; c != '+' && c != '0'
  {
    hide Digits, ValueOf, ParseInt;
    var i := Colon(s);
    var tail := s[i + 1..];
    var clock := Parse(s).value.clock;
    assert s == s[..i] + ":" + tail && tail[0] == s[i + 1];
    FormatsBack(s[..i], clock, tail);
    var signed, rest := IntWritten(tail);
    if tail[0] == '+' || tail[0] == '0' {
      assert IsDigit(Digits(clock)[0]) && Digits(clock)[0] != '0';
    } else {
      assert !signed && tail == rest;
      ValueDigits(tail);
    }
  }

  function Zeros(n: nat): (s: string)
    ensures |s| == n && AllDigits(s)
  {
    if n == 0 then "" else "0" + Zeros(n - 1)
  }

  lemma {:induction false} ZeroInFront(s: string)
    requires AllDigits(s)
    ensures AllDigits("0" + s) && ValueOf("0" + s) == ValueOf(s)
    decreases |s|
  {
    if s == "" {
      assert "0" + s == "0" && "0"[..0] == "";
    } else {
      ZeroInFront(s[..|s| - 1]);
      assert ("0" + s)[..|s|] == "0" + s[..|s| - 1];
    }
  }

  lemma {:induction false} ZerosInFront(n: nat, s: string)
    requires AllDigits(s)
    ensures AllDigits(Zeros(n) + s) && ValueOf(Zeros(n) + s) == ValueOf(s)
  {
    hide ValueOf;
    if n == 0 {
      assert Zeros(0) + s == s;
    } else {
      ZerosInFront(n - 1, s);
      ZeroInFront(Zeros(n - 1) + s);
      assert Zeros(n) + s == "0" + (Zeros(n - 1) + s);
    }
  }

  lemma {:induction false} LeadingZeros(s: string) returns (n: nat)
    requires AllDigits(s) && ValueOf(s) > 0
    ensures s == Zeros(n) + Digits(ValueOf(s))
    decreases |s|
  {
    if s[0] != '0' {
      n := 0;
      ValueDigits(s);
      assert Zeros(0) + Digits(ValueOf(s)) == s;
    } else {
      assert s == "0" + s[1..];
      ZeroInFront(s[1..]);
      var m := LeadingZeros(s[1..]);
      n := m + 1;
      assert Zeros(n) + Digits(ValueOf(s)) == "0" + (Zeros(m) + Digits(ValueOf(s)));
    }
  }

  /** `s` is the site, a colon, and the clock in decimal, behind a plus sign or not and behind any zeros. */
  ghost predicate Writes(s: string, id: Id, signed: bool, zeros: nat) {
    && id.Atom? && ValidSite(id.site) && 1 <= id.clock <= 0x7FFF_FFFF_FFFF_FFFF
    && s == id.site + ":" + (if signed then "+" else "") + Zeros(zeros) + Digits(id.clock)
  }

  lemma ParseSplits(site: string, tail: string)
    requires ValidSite(site) && tail != ""
    ensures var clock := ParseInt(tail);
      Parse(site + ":" + tail) ==
        if clock.None? || clock.value <= 0 then None else Some(Atom(site, clock.value))
  {
    hide ParseInt;
    ColonOf(site, tail);
    var s := site + ":" + tail;
    assert s[..|site|] == site && s[|site| + 1..] == tail;
  }

  lemma IntReads(signed: bool, rest: string)
    requires AllDigits(rest) && rest != "" && ValueOf(rest) <= 0x7FFF_FFFF_FFFF_FFFF
    ensures ParseInt((if signed then "+" else "") + rest) == Some(ValueOf(rest))
  {
    hide ValueOf;
    var tail := (if signed then "+" else "") + rest;
    assert IsDigit(rest[0]);
    if signed { assert tail[0] == '+' && tail[1..] == rest; } else { assert tail == rest; }
  }

  lemma IntWritten(tail: string) returns (signed: bool, rest: string)
    requires ParseInt(tail).Some? && ParseInt(tail).value > 0
    ensures AllDigits(rest) && ValueOf(rest) == ParseInt(tail).value && tail == (if signed then "+" else "") + rest
  {
    hide ValueOf;
    signed := tail[0] == '+';
    rest := if signed then tail[1..] else tail;
  }

  /** A text parses as an id exactly if it writes it so. */
  lemma ParsesExactlyWhen(s: string, id: Id)
    ensures Parse(s) == Some(id) <==> exists signed: bool, zeros: nat :: Writes(s, id, signed, zeros)
  {
    if Parse(s) == Some(id) {
      var signed, zeros := ParsedIsWritten(s, id);
    } else if signed: bool, zeros: nat :| Writes(s, id, signed, zeros) {
      WrittenParses(s, id, signed, zeros);
    }
  }

  lemma ParsedIsWritten(s: string, id: Id) returns (signed: bool, zeros: nat)
    requires Parse(s) == Some(id)
    ensures Writes(s, id, signed, zeros)
  {
    hide ParseInt, ValueOf, Zeros, Digits;
    ParsedIsValid(s);
    var i := Colon(s);
    var tail := s[i + 1..];
    var rest;
    signed, rest := IntWritten(tail);
    zeros := LeadingZeros(rest);
    assert s == s[..i] + ":" + tail;
  }

  lemma WrittenParses(s: string, id: Id, signed: bool, zeros: nat)
    requires Writes(s, id, signed, zeros)
    ensures Parse(s) == Some(id)
  {
    hide ParseInt, ValueOf, Zeros, Digits, Parse;
    var sign, rest := if signed then "+" else "", Zeros(zeros) + Digits(id.clock);
    ZerosInFront(zeros, Digits(id.clock));
    DigitsValue(id.clock);
    IntReads(signed, rest);
    ParseSplits(id.site, sign + rest);
    assert s == id.site + ":" + (sign + rest);
  }

  // ----- comparison ---------------------------------------------------------------------------------

  /** On texts that parse, the comparison is the one of the pairs, and calls exactly the texts of one pair equal. */
  lemma ComparesPairs(a: string, b: string)
    requires Parse(a).Some? && Parse(b).Some?
    ensures CompareSiblingText(a, b) == CompareSibling(Parse(a).value, Parse(b).value)
    ensures CompareSiblingText(a, b) == 0 <==> Parse(a) == Parse(b)
  {
    SiblingOrderTotal(Parse(a).value, Parse(b).value);
    StrLessTotal(Parse(a).value.site, Parse(b).value.site);
  }

  /** Distinct texts never tie if both are canonical; a text that is not ties with its canonical form. */
  lemma TiesExactlyWhenNotCanonical(a: string)
    requires Parse(a).Some?
    ensures Canonical(a) <==>
      forall b {:trigger CompareSiblingText(a, b)} :: Canonical(b) && CompareSiblingText(a, b) == 0 ==> a == b
  {
    var id := Parse(a).value;
    var c := Format(id.site, id.clock);
    ParsedIsValid(a);
    FormatThenParse(id.site, id.clock);
    assert Canonical(c);
    ComparesPairs(a, c);
    forall b | Canonical(b) && CompareSiblingText(a, b) == 0 ensures b == c { ComparesPairs(a, b); }
  }

  /** The insertion scan of `insertChild` over texts. */
  function InsertText(kids: seq<string>, id: string): seq<string> {
    if kids == [] then [id]
    else if CompareSiblingText(kids[0], id) < 0 then [kids[0]] + InsertText(kids[1..], id)
    else if kids[0] == id then kids
    else [id] + kids
  }

  /** Two texts of one pair: whichever arrives last comes first. */
  lemma ArrivalDecides(a: string, b: string)
    requires Parse(a).Some? && Parse(a) == Parse(b) && a != b
    ensures InsertText(InsertText([], a), b) == [b, a] && InsertText(InsertText([], b), a) == [a, b]
  {
    ComparesPairs(a, b);
    ComparesPairs(b, a);
  }

  lemma ArrivalDecidesForInstance()
    ensures InsertText(["a:1"], "a:01") == ["a:01", "a:1"] && InsertText(["a:01"], "a:1") == ["a:1", "a:01"]
  {
    assert "1"[..0] == "" && "01"[..1] == "0" && "0"[..0] == "";
    assert ValueOf("1") == 1 && ValueOf("0") == 0 && ValueOf("01") == 1;
    ColonOf("a", "1");
    ColonOf("a", "01");
    assert "a:1" == "a" + ":" + "1" && "a:01" == "a" + ":" + "01";
    assert "a:1"[2..] == "1" && "a:01"[2..] == "01" && "a:1"[..1] == "a" && "a:01"[..1] == "a";
    ArrivalDecides("a:1", "a:01");
    ArrivalDecides("a:01", "a:1");
  }
}
