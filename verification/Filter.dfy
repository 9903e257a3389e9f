/** Subnet and range filters, and their union. */
module Filters {
  import opened Options
  import opened Bits
  import opened Powers
  import opened Decimals
  import opened Addresses

  /** A subnet by its network address and mask, or a range by its bounds. */
  datatype Filter = Subnet(network: Address, mask: nat) | Range(first: Address, last: Address)

  function Clamp(v: nat, lo: nat, hi: nat): nat {
    if v < lo then lo else if hi < v then hi else v
  }

  predicate Matches(f: Filter, ip: Address) {
    match f
    case Subnet(network, mask) => And(ip, mask) == network
    case Range(first, last) => ip == Clamp(ip, first, last)
  }

  /** A range matches what lies between its bounds. */
  lemma RangeMatches(first: Address, last: Address, ip: Address)
    requires first <= last
    ensures Matches(Range(first, last), ip) <==> first <= ip <= last
  {
  }

  function Create32BitMask(prefix: nat): nat
    requires prefix <= 32
  {
    if prefix == 0 then 0 else ShiftLeft(0xFFFF_FFFF, 32 - prefix)
  }

  predicate IsValidCIDRPrefix(prefix: int) {
    0 <= prefix <= 32
  }

  // ----- masks

  /** The mask has `prefix` ones followed by zeros. */
  lemma MaskValue(prefix: nat)
    requires prefix <= 32
    ensures Pow2(32 - prefix) <= WORD && Create32BitMask(prefix) == WORD - Pow2(32 - prefix)
  {
    Pow2Of32();
    if prefix > 0 {
      var p := Pow2(32 - prefix);
      Pow2Monotone(32 - prefix, 31);
      assert 0xFFFF_FFFF * p == (p - 1) * WORD + (WORD - p);
      Remainder(0xFFFF_FFFF * p, WORD, p - 1, WORD - p);
    }
  }

  function SubnetOf(a: Address, prefix: nat): (f: Filter)
    requires prefix <= 32
  {
    var mask := Create32BitMask(prefix);
    MaskedIsSmaller(a, mask);
    Subnet(And(a, mask), mask)
  }

  lemma {:induction false} MaskedIsSmaller(x: nat, y: nat)
    ensures And(x, y) <= x
  {
    if x != 0 && y != 0 { MaskedIsSmaller(x / 2, y / 2); }
  }

  /** Two numbers lie in the same block of `q` when each is at most `q - 1` above the start of the other's block. */
  lemma SameBlock(x: nat, a: nat, q: nat)
    requires q > 0
    ensures x - x % q == a - a % q <==> a - a % q <= x <= a - a % q + (q - 1)
  {
    assert x == x / q * q + x % q && a == a / q * q + a % q;
    if a - a % q <= x <= a - a % q + (q - 1) {
      Remainder(x, q, a / q, x - a / q * q);
    }
  }

  lemma BlockFits(a: nat, blocks: nat, q: nat)
    requires q > 0 && a < blocks * q
    ensures a - a % q + q <= blocks * q
  {
    var c := a / q;
    assert a == c * q + a % q;
    if c >= blocks {
      Scaled(blocks, c, q);
    }
    Scaled(c + 1, blocks, q);
  }

  lemma Scaled(x: nat, y: nat, q: nat)
    requires x <= y
    ensures x * q <= y * q
  {
    assert y * q == x * q + (y - x) * q;
  }

  /** The network address is the address with its last bits cleared. */
  lemma NetworkAddress(a: Address, prefix: nat)
    requires prefix <= 32
    ensures var q := Pow2(32 - prefix);
            SubnetOf(a, prefix).network == a - a % q &&
            a - a % q + q <= WORD && forall ip: Address :: And(ip, Create32BitMask(prefix)) == ip - ip % q
  {
    var q := Pow2(32 - prefix);
    Pow2Of32();
    MaskValue(prefix);
    forall ip: Address
      ensures And(ip, Create32BitMask(prefix)) == ip - ip % q
    {
      AndClears(ip, 32, 32 - prefix);
    }
    Pow2Add(prefix, 32 - prefix);
    BlockFits(a, Pow2(prefix), q);
  }

  /** Section 3.1 of RFC 4632: a subnet is the range of the 2^(32 - prefix) addresses from its network address on. */
  lemma SubnetIsRange(a: Address, prefix: nat, ip: Address)
    requires prefix <= 32
    ensures var first, count := SubnetOf(a, prefix).network, Pow2(32 - prefix);
            && first == a - a % count && first <= a < first + count <= WORD
            && (Matches(SubnetOf(a, prefix), ip) <==> first <= ip <= first + count - 1)
            && (Matches(SubnetOf(a, prefix), ip) <==> Matches(Range(first, first + count - 1), ip))
  {
    NetworkAddress(a, prefix);
    SameBlock(ip, a, Pow2(32 - prefix));
  }

  // ----- the texts of filters

  /** `string::find`: the first place of `c`. */
  function Find(s: string, c: char): (r: Option<nat>)
    ensures match r
            case None => c !in s
            case Some(k) => k < |s| && s[k] == c && c !in s[..k]
  {
    if s == [] then None
    else if s[0] == c then Some(0)
    else
      match Find(s[1..], c)
      case None => None
      case Some(k) =>
        assert s[..k + 1] == [s[0]] + s[1..][..k];
        Some(k + 1)
  }

  lemma FindIsUnique(s: string, c: char, front: string, back: string)
    requires s == front + [c] + back && c !in front
    ensures Find(s, c) == Some(|front|) && s[..|front|] == front && s[|front| + 1..] == back
  {
    assert s[|front|] == c && forall i :: 0 <= i < |front| ==> s[i] == front[i];
    var k := Find(s, c).value;
    assert forall i :: 0 <= i < k ==> s[..k][i] == s[i];
  }

  const INT_MAX: nat := 0x7FFF_FFFF

  /** The prefix length that a text stands for, read as an `int` that must be the whole text. */
  function PrefixOf(s: string): (r: Option<nat>)
    ensures r.Some? ==> r.value <= 32
  {
    var (next, value) := SignedFromChars(s, INT_MAX);
    if value.Some? && next == |s| && IsValidCIDRPrefix(value.value) then Some(value.value) else None
  }

  /** Leading zeros and a minus sign before zero are accepted. */
  lemma PrefixTexts(s: string, prefix: nat)
    ensures PrefixOf(s) == Some(prefix) <==>
            prefix <= 32 && ((s != [] && AllDigits(s) && Number(s) == prefix) ||
                             (prefix == 0 && |s| > 1 && s[0] == '-' && AllDigits(s[1..]) && Number(s[1..]) == 0))
  {
    if s != [] && s[0] == '-' {
      assert !AllDigits(s);
      WholeNumeral(s, 1);
    } else {
      WholeNumeral(s, 0);
      assert s[0..] == s;
    }
  }

  /** `FromChars` reads the whole text from `ptr` on exactly when there are digits only. */
  lemma WholeNumeral(s: string, ptr: nat)
    requires ptr <= |s|
    ensures DigitsEnd(s, ptr) == |s| <==> AllDigits(s[ptr..])
    ensures DigitsEnd(s, ptr) == |s| ==> s[ptr..DigitsEnd(s, ptr)] == s[ptr..]
  {
    assert s[ptr..|s|] == s[ptr..];
    if AllDigits(s[ptr..]) { DigitsEndIsUnique(s, ptr, |s|); }
  }

  /** What a CIDR text stands for: an address, a slash and a prefix length. */
  ghost predicate IsSubnetText(cidr: string, a: Address, prefix: nat) {
    exists t :: PrefixOf(t) == Some(prefix) && cidr == Print(a) + "/" + t
  }

  lemma PrintSymbols(a: Address)
    ensures ContainValidIPSymbols(Print(a))
  {
    DottedSymbols(Octets(a));
  }

  lemma SubnetTextParts(cidr: string, a: Address, prefix: nat)
    requires IsSubnetText(cidr, a, prefix)
    ensures var k := Find(cidr, '/');
            k.Some? && AddressOf(cidr[..k.value]) == Some(a) && PrefixOf(cidr[k.value + 1..]) == Some(prefix)
  {
    var t :| PrefixOf(t) == Some(prefix) && cidr == Print(a) + "/" + t;
    PrintSymbols(a);
    FindIsUnique(cidr, '/', Print(a), t);
    ParseOfPrint(a);
  }

  ghost function SubnetText(cidr: string): Option<Filter> {
    var k := Find(cidr, '/');
    if k == None then None else
    var a, prefix := AddressOf(cidr[..k.value]), PrefixOf(cidr[k.value + 1..]);
    if a == None || prefix == None then None else Some(SubnetOf(a.value, prefix.value))
  }

  lemma SubnetTextWhole(cidr: string) returns (a: Address, prefix: nat)
    requires SubnetText(cidr).Some?
    ensures prefix <= 32 && IsSubnetText(cidr, a, prefix) && SubnetText(cidr) == Some(SubnetOf(a, prefix))
  {
    hide Print, AddressOf, IPv4Grammar, PrefixOf, SubnetOf;
    var k := Find(cidr, '/').value;
    var ip, t := cidr[..k], cidr[k + 1..];
    a, prefix := AddressOf(ip).value, PrefixOf(t).value;
    PrintOfParse(ip);
    assert cidr == ip + "/" + t;
  }

  /** A text is accepted exactly when it is an address, a slash and a prefix length, and it stands for that subnet. */
  lemma SubnetTexts(cidr: string, f: Filter)
    ensures SubnetText(cidr) == Some(f) <==> exists a: Address, prefix: nat ::
              prefix <= 32 && IsSubnetText(cidr, a, prefix) && f == SubnetOf(a, prefix)
  {
    if SubnetText(cidr) == Some(f) {
      var a, prefix := SubnetTextWhole(cidr);
    }
    if a: Address, prefix: nat :| prefix <= 32 && IsSubnetText(cidr, a, prefix) && f == SubnetOf(a, prefix) {
      SubnetTextParts(cidr, a, prefix);
    }
  }

  /** The same, text by text. */
  lemma AcceptedSubnets(cidr: string)
    ensures SubnetText(cidr).Some? <==> exists a: Address, t: string :: PrefixOf(t).Some? && cidr == Print(a) + "/" + t
    ensures forall a: Address, t: string :: PrefixOf(t).Some? && cidr == Print(a) + "/" + t ==>
              SubnetText(cidr) == Some(SubnetOf(a, PrefixOf(t).value))
  {
    hide Print, PrefixOf, SubnetOf, SubnetText;
    forall a: Address, t: string | PrefixOf(t).Some? && cidr == Print(a) + "/" + t
      ensures SubnetText(cidr) == Some(SubnetOf(a, PrefixOf(t).value))
    {
      assert IsSubnetText(cidr, a, PrefixOf(t).value);
      SubnetTexts(cidr, SubnetOf(a, PrefixOf(t).value));
    }
    if SubnetText(cidr).Some? {
      var a, prefix := SubnetTextWhole(cidr);
    }
  }

  method CreateSubnet(cidr: string) returns (r: Option<Filter>)
    ensures r == SubnetText(cidr)
    ensures r.Some? <==> exists a: Address, t: string :: PrefixOf(t).Some? && cidr == Print(a) + "/" + t
    ensures forall a: Address, t: string :: PrefixOf(t).Some? && cidr == Print(a) + "/" + t ==>
              r == Some(SubnetOf(a, PrefixOf(t).value))
  {
    AcceptedSubnets(cidr);
    hide Print, AddressOf, IPv4Grammar, SubnetOf;
    var slashPos := Find(cidr, '/');
    if slashPos == None {
      return None;
    }
    var ip := FromString(cidr[..slashPos.value]);
    if ip == None {
      return None;
    }
    var (next, prefix) := SignedFromChars(cidr[slashPos.value + 1..], INT_MAX);
    if prefix == None || next != |cidr[slashPos.value + 1..]| || !IsValidCIDRPrefix(prefix.value) {
      return None;
    }
    return Some(SubnetOf(ip.value, prefix.value));
  }

  /** The canonical text of a subnet is read as that subnet. */
  lemma CanonicalSubnetText(a: Address, prefix: nat)
    requires prefix <= 32
    ensures IsSubnetText(Print(a) + "/" + Decimal(prefix), a, prefix)
  {
    SignedFromDecimal(prefix, INT_MAX);
    assert PrefixOf(Decimal(prefix)) == Some(prefix);
  }

  method CreateRangeOf(left: string, right: string) returns (r: Option<Filter>)
    ensures r.Some? ==> r.value.Range? && r.value.first <= r.value.last && left == Print(r.value.first)
    ensures r.Some? ==> right == Print(r.value.last)
    ensures forall a: Address, b: Address :: a <= b && left == Print(a) && right == Print(b) ==> r == Some(Range(a, b))
  {
    forall a: Address { ParseOfPrint(a); }
    var first := FromString(left);
    var last := FromString(right);
    if first == None || last == None || first.value > last.value {
      return None;
    }
    return Some(Range(first.value, last.value));
  }

  method CreateRange(range: string) returns (r: Option<Filter>)
    ensures r.Some? ==> r.value.Range? && r.value.first <= r.value.last
    ensures r.Some? ==> range == Print(r.value.first) + "-" + Print(r.value.last)
    ensures forall a: Address, b: Address :: a <= b && range == Print(a) + "-" + Print(b) ==> r == Some(Range(a, b))
  {
    forall a: Address, b: Address | range == Print(a) + "-" + Print(b)
      ensures var k := Find(range, '-'); k.Some? && range[..k.value] == Print(a) && range[k.value + 1..] == Print(b)
    {
      PrintSymbols(a);
      FindIsUnique(range, '-', Print(a), Print(b));
    }
    var dashPos := Find(range, '-');
    if dashPos == None {
      return None;
    }
    var left, right := range[..dashPos.value], range[dashPos.value + 1..];
    assert range == left + "-" + right;
    r := CreateRangeOf(left, right);
  }

  // ----- composition

  const MAX_FILTERS: nat := 20

  /** Some filter of the list matches. */
  ghost predicate AnyMatches(fs: seq<Filter>, ip: Address) {
    exists i :: 0 <= i < |fs| && Matches(fs[i], ip)
  }

  /** The empty list matches nothing; of two lists together, either may match. */
  lemma MatchesOfUnion(fs: seq<Filter>, gs: seq<Filter>, ip: Address)
    ensures !AnyMatches([], ip)
    ensures AnyMatches(fs + gs, ip) <==> AnyMatches(fs, ip) || AnyMatches(gs, ip)
  {
    forall i | 0 <= i < |fs + gs|
      ensures (fs + gs)[i] == if i < |fs| then fs[i] else gs[i - |fs|]
    {
    }
    if i :| 0 <= i < |fs| && Matches(fs[i], ip) { assert Matches((fs + gs)[i], ip); }
    if i :| 0 <= i < |gs| && Matches(gs[i], ip) { assert Matches((fs + gs)[|fs| + i], ip); }
  }

  class CompositeFilter {
    var filters: seq<Filter>

    constructor ()
      ensures filters == []
    {
      filters := [];
    }

    /** False when the composite is full: the source throws. */
    method Add(f: Filter) returns (added: bool)
      modifies this
      ensures added == (|old(filters)| < 20)
      ensures filters == if added then old(filters) + [f] else old(filters)
      ensures added ==> forall ip :: AnyMatches(filters, ip) <==> old(AnyMatches(filters, ip)) || Matches(f, ip)
    {
      added := |filters| < MAX_FILTERS;
      if added {
        filters := filters + [f];
        assert filters[|filters| - 1] == f;
        assert forall i :: 0 <= i < |old(filters)| ==> filters[i] == old(filters)[i];
      }
    }

    method Accepts(ip: Address) returns (r: bool)
      ensures r == AnyMatches(filters, ip)
      ensures r <==> exists i :: 0 <= i < |filters| && Matches(filters[i], ip)
    {
      for i := 0 to |filters|
        invariant forall j :: 0 <= j < i ==> !Matches(filters[j], ip)
      {
        if Matches(filters[i], ip) {
          return true;
        }
      }
      return false;
    }
  }
}
