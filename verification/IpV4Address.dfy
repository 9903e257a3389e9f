/** IPv4 addresses: a parser with a pointer into the text, and the dotted-decimal notation it accepts. */
module Addresses {
  import opened Options
  import opened Bits
  import opened Powers
  import opened Decimals

  type Address = a: nat | a < WORD

  // ----- the notation

  /** Numbers in canonical decimal, with dots between them. */
  ghost function Dotted(os: seq<nat>): string {
    if os == [] then "" else Decimal(os[0]) + if |os| == 1 then "" else "." + Dotted(os[1..])
  }

  ghost predicate AreBytes(os: seq<nat>) {
    |os| == 4 && forall i :: 0 <= i < 4 ==> os[i] <= 255
  }

  function Octets(a: Address): (os: seq<nat>)
    ensures AreBytes(os)
  {
    [a / 256 / 256 / 256, a / 256 / 256 % 256, a / 256 % 256, a % 256]
  }

  /** The canonical notation of an address. */
  ghost function Print(a: Address): string {
    Dotted(Octets(a))
  }

  /** `dec-octet` of section 3.2.2 of RFC 3986. */
  predicate DecOctet(s: string): (r: bool)
    ensures r ==> AllDigits(s)
  {
    || (|s| == 1 && IsDigit(s[0]))
    || (|s| == 2 && '1' <= s[0] <= '9' && IsDigit(s[1]))
    || (|s| == 3 && s[0] == '1' && IsDigit(s[1]) && IsDigit(s[2]))
    || (|s| == 3 && s[0] == '2' && '0' <= s[1] <= '4' && IsDigit(s[2]))
    || (|s| == 3 && s[0] == '2' && s[1] == '5' && '0' <= s[2] <= '5')
  }

  /** `IPv4address` of section 3.2.2 of RFC 3986. */
  ghost predicate IPv4Grammar(s: string) {
    exists a, b, c, d ::
      DecOctet(a) && DecOctet(b) && DecOctet(c) && DecOctet(d) && s == a + "." + b + "." + c + "." + d
  }

  lemma DecOctetOfDecimal(n: nat)
    requires n <= 255
    ensures DecOctet(Decimal(n))
  {
    if n >= 10 {
      assert Decimal(n) == Decimal(n / 10) + [Digit(n % 10)];
      if n >= 100 { assert Decimal(n / 10) == [Digit(n / 100), Digit(n / 10 % 10)]; }
    }
  }

  lemma DecimalOfDecOctet(s: string)
    requires DecOctet(s)
    ensures AllDigits(s) && Number(s) <= 255 && Decimal(Number(s)) == s
  {
    DecimalOfNumber(s);
    assert s[..|s| - 1] == if |s| == 1 then [] else if |s| == 2 then [s[0]] else [s[0], s[1]];
    if |s| == 3 { assert [s[0], s[1]][..1] == [s[0]]; }
    assert |s| > 1 ==> [s[0]][..0] == [];
  }

  lemma Regroup(p: string, a: string, b: string)
    ensures p + (a + "." + b) == p + a + "." + b
  {
  }

  lemma DottedMore(o: nat, os: seq<nat>)
    requires os != []
    ensures Dotted([o] + os) == Decimal(o) + "." + Dotted(os)
  {
    assert ([o] + os)[1..] == os;
    Regroup(Decimal(o), "", Dotted(os));
  }

  lemma DottedFour(a: nat, b: nat, c: nat, d: nat)
    ensures Dotted([a, b, c, d]) == Decimal(a) + "." + Decimal(b) + "." + Decimal(c) + "." + Decimal(d)
  {
    DottedMore(c, [d]);
    DottedMore(b, [c, d]);
    DottedMore(a, [b, c, d]);
    assert [c] + [d] == [c, d] && [b] + [c, d] == [b, c, d] && [a] + [b, c, d] == [a, b, c, d];
    Regroup(Decimal(b) + ".", Decimal(c), Decimal(d));
    Regroup(Decimal(a) + ".", Decimal(b) + "." + Decimal(c), Decimal(d));
    Regroup(Decimal(a) + ".", Decimal(b), Decimal(c));
  }

  /** The text of four octets is the notation of the number that they are the digits of, in base 256. */
  lemma PrintOfGrammar(a: string, b: string, c: string, d: string) returns (x: Address)
    requires DecOctet(a) && DecOctet(b) && DecOctet(c) && DecOctet(d)
    ensures x == ((Number(a) * 256 + Number(b)) * 256 + Number(c)) * 256 + Number(d)
    ensures a + "." + b + "." + c + "." + d == Print(x)
  {
    DecimalOfDecOctet(a); DecimalOfDecOctet(b); DecimalOfDecOctet(c); DecimalOfDecOctet(d);
    var os := [Number(a), Number(b), Number(c), Number(d)];
    DottedFour(os[0], os[1], os[2], os[3]);
    OctetsOfPacked(os);
    x := Packed(os);
  }

  lemma GrammarOfPrint(x: Address)
    ensures IPv4Grammar(Print(x))
  {
    var os := Octets(x);
    DottedFour(os[0], os[1], os[2], os[3]);
    DecOctetOfDecimal(os[0]); DecOctetOfDecimal(os[1]); DecOctetOfDecimal(os[2]); DecOctetOfDecimal(os[3]);
  }

  /** The grammar describes exactly the canonical notations of the 32-bit addresses. */
  lemma GrammarIsPrint(s: string)
    ensures IPv4Grammar(s) <==> exists x: Address :: s == Print(x)
  {
    if IPv4Grammar(s) {
      var a, b, c, d :|
        DecOctet(a) && DecOctet(b) && DecOctet(c) && DecOctet(d) && s == a + "." + b + "." + c + "." + d;
      var x := PrintOfGrammar(a, b, c, d);
    }
    if x: Address :| s == Print(x) {
      GrammarOfPrint(x);
    }
  }

  // ----- packing

  ghost function Packed(os: seq<nat>): Address
    requires AreBytes(os)
  {
    ((os[0] * 256 + os[1]) * 256 + os[2]) * 256 + os[3]
  }

  lemma LastOctet(x: nat, o: nat)
    requires o <= 255
    ensures (x * 256 + o) / 256 == x && (x * 256 + o) % 256 == o
  {
  }

  lemma OctetsOfPacked(os: seq<nat>)
    requires AreBytes(os)
    ensures Octets(Packed(os)) == os
  {
    LastOctet(os[0], os[1]);
    LastOctet(os[0] * 256 + os[1], os[2]);
    LastOctet((os[0] * 256 + os[1]) * 256 + os[2], os[3]);
  }

  lemma PackedOctets(a: Address)
    ensures Packed(Octets(a)) == a
  {
    var b := a / 256;
    var c := b / 256;
    assert a == b * 256 + a % 256 && b == c * 256 + b % 256 && c == c / 256 * 256 + c % 256;
  }

  /** The octets of an address, shifted to their places and joined. */
  function Pack(octets: seq<nat>): (a: nat)
    requires |octets| == 4
  {
    Or(Or(Or(ShiftLeft(octets[0], 24), ShiftLeft(octets[1], 16)), ShiftLeft(octets[2], 8)), octets[3])
  }

  /** An octet shifted to its place loses no bit. */
  lemma ShiftedOctet(o: nat, k: nat, p: nat)
    requires o <= 255 && k < 32 && Pow2(k) == p <= 0x100_0000
    ensures ShiftLeft(o, k) == o * p
  {
    assert o * p <= 255 * p;
    SmallModulus(o * p, WORD);
  }

  lemma PackIsPacked(octets: seq<nat>)
    requires AreBytes(octets)
    ensures Pack(octets) == Packed(octets)
  {
    Pow2Of32();
    ShiftedOctet(octets[0], 24, 0x100_0000);
    ShiftedOctet(octets[1], 16, 0x1_0000);
    ShiftedOctet(octets[2], 8, 0x100);
    OrIsSum(octets[0], 24, octets[1] * 0x1_0000);
    OrIsSum(octets[0] * 256 + octets[1], 16, octets[2] * 0x100);
    OrIsSum((octets[0] * 256 + octets[1]) * 256 + octets[2], 8, octets[3]);
  }

  method FromBytes(octets: seq<nat>) returns (r: Option<Address>)
    requires |octets| == 4
    ensures r.Some? <==> AreBytes(octets)
    ensures r.Some? ==> Octets(r.value) == octets
    ensures r.Some? ==> r.value == ((octets[0] * 256 + octets[1]) * 256 + octets[2]) * 256 + octets[3]
  {
    for i := 0 to 4
      invariant forall j :: 0 <= j < i ==> octets[j] <= 255
    {
      if octets[i] > 255 {
        return None;
      }
    }
    PackIsPacked(octets);
    OctetsOfPacked(octets);
    return Some(Pack(octets));
  }

  // ----- parsing

  predicate ContainValidIPSymbols(s: string) {
    forall i :: 0 <= i < |s| ==> IsDigit(s[i]) || s[i] == '.'
  }

  lemma {:induction false} DottedSymbols(os: seq<nat>)
    ensures ContainValidIPSymbols(Dotted(os))
  {
    if |os| > 1 { DottedSymbols(os[1..]); }
  }

  /** The text from `ptr` on is the notation of `os`, told by its first number. */
  ghost predicate HeadOf(s: string, ptr: nat, os: seq<nat>)
    requires ptr <= |s| && os != []
  {
    var e := DigitsEnd(s, ptr);
    && e > ptr
    && (s[ptr] == '0' ==> e == ptr + 1)
    && Number(s[ptr..e]) == os[0]
    && if |os| == 1 then e == |s| else e < |s| && s[e] == '.' && s[e + 1..] == Dotted(os[1..])
  }

  lemma HeadOfDotted(s: string, ptr: nat, os: seq<nat>)
    requires ptr <= |s| && os != [] && s[ptr..] == Dotted(os)
    ensures HeadOf(s, ptr, os)
  {
    var d := Decimal(os[0]);
    var e := ptr + |d|;
    assert s[ptr..e] == s[ptr..][..|d|] == d;
    assert s[ptr] == d[0];
    if |os| > 1 {
      assert s[e] == s[ptr..][|d|] == '.';
      assert s[e + 1..] == s[ptr..][|d| + 1..] == Dotted(os[1..]);
    }
    DigitsEndIsUnique(s, ptr, e);
    NumberOfDecimal(os[0]);
  }

  lemma DottedOfHead(s: string, ptr: nat, os: seq<nat>)
    requires ptr <= |s| && os != [] && HeadOf(s, ptr, os)
    ensures s[ptr..] == Dotted(os)
  {
    var e := DigitsEnd(s, ptr);
    DecimalOfNumber(s[ptr..e]);
    assert s[ptr..] == s[ptr..e] + s[e..];
    if |os| > 1 { assert s[e..] == "." + s[e + 1..]; }
  }

  lemma DottedHead(s: string, ptr: nat, os: seq<nat>)
    requires ptr <= |s| && os != []
    ensures s[ptr..] == Dotted(os) <==> HeadOf(s, ptr, os)
  {
    if s[ptr..] == Dotted(os) { HeadOfDotted(s, ptr, os); }
    if HeadOf(s, ptr, os) { DottedOfHead(s, ptr, os); }
  }

  /** After `i` octets: `s` can only be the notation of four bytes that start with these and continue with what follows
      `ptr`. */
  ghost predicate Parsed(s: string, octets: seq<nat>, i: nat, ptr: nat)
    requires |octets| == 4
  {
    i <= 4 && ptr <= |s| &&
    forall os :: AreBytes(os) ==> (s == Dotted(os) <==> os[..i] == octets[..i] && s[ptr..] == Dotted(os[i..]))
  }

  lemma ParsedNothing(s: string, octets: seq<nat>)
    requires |octets| == 4
    ensures Parsed(s, octets, 0, 0)
  {
    forall os | AreBytes(os)
      ensures s == Dotted(os) <==> os[..0] == octets[..0] && s[0..] == Dotted(os[0..])
    {
      assert os[0..] == os && s[0..] == s && os[..0] == octets[..0];
    }
  }

  ghost predicate NoAddress(s: string) {
    AddressOf(s) == None && !IPv4Grammar(s)
  }

  lemma NotDotted(s: string)
    requires forall os :: AreBytes(os) ==> s != Dotted(os)
    ensures NoAddress(s)
  {
    GrammarIsPrint(s);
  }

  lemma SymbolRejected(s: string)
    requires !ContainValidIPSymbols(s)
    ensures NoAddress(s)
  {
    forall os { DottedSymbols(os); }
    NotDotted(s);
  }

  /** Any of the checks on one octet fails. */
  lemma OctetRejected(s: string, octets: seq<nat>, i: nat, ptr: nat)
    requires |octets| == 4 && i < 4 && Parsed(s, octets, i, ptr)
    requires var e := DigitsEnd(s, ptr);
             e == ptr || (s[ptr] == '0' && e != ptr + 1) || Number(s[ptr..e]) > 255 ||
             (i < 3 && (e == |s| || s[e] != '.'))
    ensures NoAddress(s)
  {
    forall os | AreBytes(os)
      ensures s != Dotted(os)
    {
      DottedHead(s, ptr, os[i..]);
    }
    NotDotted(s);
  }

  lemma OctetAccepted(s: string, octets: seq<nat>, i: nat, ptr: nat)
    requires |octets| == 4 && i < 4 && Parsed(s, octets, i, ptr)
    requires var e := DigitsEnd(s, ptr);
             e > ptr && (s[ptr] == '0' ==> e == ptr + 1) && (i < 3 ==> e < |s| && s[e] == '.')
    ensures var e := DigitsEnd(s, ptr); Parsed(s, octets[i := Number(s[ptr..e])], i + 1, if i < 3 then e + 1 else e)
  {
    forall os | AreBytes(os)
      ensures var e := DigitsEnd(s, ptr); var ptr' := if i < 3 then e + 1 else e;
              s == Dotted(os) <==>
                  os[..i + 1] == octets[i := Number(s[ptr..e])][..i + 1] && s[ptr'..] == Dotted(os[i + 1..])
    {
      OctetFits(s, octets, i, ptr, os);
    }
  }

  lemma OctetFits(s: string, octets: seq<nat>, i: nat, ptr: nat, os: seq<nat>)
    requires |octets| == 4 && i < 4 && ptr <= |s| && AreBytes(os)
    requires s == Dotted(os) <==> os[..i] == octets[..i] && s[ptr..] == Dotted(os[i..])
    requires var e := DigitsEnd(s, ptr);
             e > ptr && (s[ptr] == '0' ==> e == ptr + 1) && (i < 3 ==> e < |s| && s[e] == '.')
    ensures var e := DigitsEnd(s, ptr); var ptr' := if i < 3 then e + 1 else e;
            s == Dotted(os) <==>
                os[..i + 1] == octets[i := Number(s[ptr..e])][..i + 1] && s[ptr'..] == Dotted(os[i + 1..])
  {
    var e := DigitsEnd(s, ptr);
    var octets' := octets[i := Number(s[ptr..e])];
    DottedHead(s, ptr, os[i..]);
    assert os[i..][1..] == os[i + 1..];
    assert os[..i + 1] == os[..i] + [os[i]] && octets'[..i + 1] == octets[..i] + [octets'[i]];
    assert i == 3 ==> os[i + 1..] == [];
  }

  /** After the last octet, the text must end, and the numbers must be bytes. */
  lemma ParsedAll(s: string, octets: seq<nat>, ptr: nat)
    requires |octets| == 4 && Parsed(s, octets, 4, ptr)
    ensures if ptr == |s| && AreBytes(octets) then s == Print(Packed(octets)) else NoAddress(s)
  {
    forall os | AreBytes(os)
      ensures s == Dotted(os) <==> ptr == |s| && os == octets
    {
      assert os[..4] == os && octets[..4] == octets && os[4..] == [];
    }
    if ptr == |s| && AreBytes(octets) {
      OctetsOfPacked(octets);
    } else {
      NotDotted(s);
    }
  }

  /** The address that `s` is the canonical notation of. */
  ghost function AddressOf(s: string): Option<Address> {
    if exists a: Address :: s == Print(a) then (var a: Address :| s == Print(a); Some(a)) else None
  }

  /** Parsing inverts printing. */
  lemma ParseOfPrint(a: Address)
    ensures AddressOf(Print(a)) == Some(a)
  {
    var a' := AddressOf(Print(a)).value;
    DottedIsInjective(Octets(a), Octets(a'));
    PackedOctets(a);
    PackedOctets(a');
  }

  /** Printing inverts parsing, on exactly the texts of the grammar. */
  lemma PrintOfParse(s: string)
    ensures AddressOf(s).Some? <==> IPv4Grammar(s)
    ensures AddressOf(s).Some? ==> Print(AddressOf(s).value) == s
  {
    GrammarIsPrint(s);
  }

  lemma {:induction false} DottedIsInjective(os: seq<nat>, os': seq<nat>)
    requires |os| == |os'| && Dotted(os) == Dotted(os')
    ensures os == os'
  {
    if os != [] {
      var s := Dotted(os);
      assert s[0..] == s;
      DottedHead(s, 0, os);
      DottedHead(s, 0, os');
      DottedIsInjective(os[1..], os'[1..]);
      assert os == [os[0]] + os[1..] && os' == [os'[0]] + os'[1..];
    }
  }

  /** What a text is worth: its four octets, read as numbers, are the digits of the address in base 256. */
  lemma ValueOfText(a: string, b: string, c: string, d: string)
    requires DecOctet(a) && DecOctet(b) && DecOctet(c) && DecOctet(d)
    ensures var r := AddressOf(a + "." + b + "." + c + "." + d);
            r.Some? && r.value == ((Number(a) * 256 + Number(b)) * 256 + Number(c)) * 256 + Number(d)
  {
    hide Print, AddressOf, DecOctet, Number;
    var x := PrintOfGrammar(a, b, c, d);
    ParseOfPrint(x);
  }

  method FromString(s: string) returns (r: Option<Address>)
    ensures r == AddressOf(s)
    ensures r.Some? <==> IPv4Grammar(s)
    ensures r.Some? ==> s == Print(r.value)
    ensures forall a, b, c, d ::
              DecOctet(a) && DecOctet(b) && DecOctet(c) && DecOctet(d) && s == a + "." + b + "." + c + "." + d ==>
                r.Some? && r.value == ((Number(a) * 256 + Number(b)) * 256 + Number(c)) * 256 + Number(d)
  {
    hide Print, AddressOf, IPv4Grammar, Dotted, Parsed, Packed, Octets, DecOctet, Number;
    forall a, b, c, d |
      DecOctet(a) && DecOctet(b) && DecOctet(c) && DecOctet(d) && s == a + "." + b + "." + c + "." + d
      ensures AddressOf(s).Some? &&
              AddressOf(s).value == ((Number(a) * 256 + Number(b)) * 256 + Number(c)) * 256 + Number(d)
    {
      ValueOfText(a, b, c, d);
    }
    if !ContainValidIPSymbols(s) {
      SymbolRejected(s);
      return None;
    }
    var octets: seq<nat>, ptr, dotCount := [0, 0, 0, 0], 0, 0;
    ParsedNothing(s, octets);
    for i := 0 to 4
      invariant |octets| == 4 && ptr <= |s| && Parsed(s, octets, i, ptr) && dotCount == if i < 4 then i else 3
    {
      if ptr >= |s| || s[ptr] == '.' {
        OctetRejected(s, octets, i, ptr);
        return None;
      }
      if s[ptr] == '0' {
        if ptr + 1 < |s| && s[ptr + 1] != '.' {
          OctetRejected(s, octets, i, ptr);
          return None;
        }
      }
      var (next, value) := FromChars(s, ptr, WORD);
      if value == None || next == ptr {
        OctetRejected(s, octets, i, ptr);
        return None;
      }
      if i < 3 && (next >= |s| || s[next] != '.') {
        OctetRejected(s, octets, i, ptr);
        return None;
      }
      OctetAccepted(s, octets, i, ptr);
      octets := octets[i := value.value];
      ptr := next;
      if i < 3 {
        ptr := ptr + 1;
        dotCount := dotCount + 1;
      }
    }
    ParsedAll(s, octets, ptr);
    if ptr != |s| || dotCount != 3 {
      return None;
    }
    r := FromBytes(octets);
    if r.Some? {
      PackedOctets(r.value);
      ParseOfPrint(r.value);
      PrintOfParse(s);
    }
  }
}
