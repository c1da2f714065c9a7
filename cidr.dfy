/**
 * The text and address arithmetic that the edge server's route lookup relies on:
 * decimal numbers, `strings.Split`, dotted-quad IPv4 addresses, `net.ParseCIDR`,
 * `IPNet.String` and the per-entry match of `Server.route`.
 * Only IPv4 is modelled; every IPv6 form counts as a parse failure.
 */
module Cidr {
  import opened Wrappers

  /** An IPv4 address, as the 32-bit number its four octets spell (most significant first). */
  type Addr = a: int | 0 <= a < 0x1_0000_0000

  /** An IPv4 network as `net.ParseCIDR` returns it: the masked address and the prefix length. */
  datatype Network = Network(base: Addr, prefix: nat)

  // ---------------------------------------------------------------------------
  // Decimal text
  // ---------------------------------------------------------------------------

  predicate IsDigit(c: char) {
    '0' <= c <= '9'
  }

  predicate AllDigits(s: string) {
    forall i :: 0 <= i < |s| ==> IsDigit(s[i])
  }

  function DigitValue(c: char): (v: nat)
    requires IsDigit(c)
  {
    c as int - '0' as int
  }

  function DigitChar(d: nat): (c: char)
    requires d < 10
    ensures IsDigit(c) && DigitValue(c) == d
  {
    ('0' as int + d) as char
  }

  /** The number a string of decimal digits denotes, accumulated left to right. */
  function DigitsValue(s: string): (v: nat)
    requires AllDigits(s)
  {
    if s == [] then 0 else 10 * DigitsValue(s[..|s| - 1]) + DigitValue(s[|s| - 1])
  }

  /** The decimal text of `n` without leading zeros, as Go's `itoa`/`uitoa` write it. */
  function Itoa(n: nat): (s: string)
    ensures |s| >= 1 && AllDigits(s)
    ensures n > 0 ==> s[0] != '0'
    ensures n == 0 ==> s == "0"
    ensures DigitsValue(s) == n
  {
    if n < 10 then [DigitChar(n)]
    else
      var s := Itoa(n / 10) + [DigitChar(n % 10)];
      assert s[..|s| - 1] == Itoa(n / 10);
      s
  }

  /** Reading the canonical text of a number back: the inverse of `Itoa` on its own image. */
  lemma {:induction false} ItoaOfDigits(s: string)
    requires |s| >= 1 && AllDigits(s) && (|s| > 1 ==> s[0] != '0')
    ensures Itoa(DigitsValue(s)) == s
  {
    if |s| > 1 {
      var p := s[..|s| - 1];
      assert p[0] == s[0];
      ItoaOfDigits(p);
      var v := DigitsValue(s);
      DivModUnique(v, 10, DigitsValue(p), DigitValue(s[|s| - 1]));
      assert DigitsValue(p) != 0;
      assert Itoa(v) == p + [s[|s| - 1]];
      assert p + [s[|s| - 1]] == s;
    }
  }

  /** The cutoff of Go's `dtoi`: a value reaching it stops the scan as a failure. */
  const Big: nat := 0xFF_FFFF

  /** What `dtoi` returns: the value read, the index where the scan stopped, and success. */
  datatype Scan = Scan(n: nat, i: nat, ok: bool)

  /**
   * Go's `dtoi(s)`: read decimal digits from the front of `s`, accumulating `n`; stop
   * with failure once `n` reaches `Big`, and fail when not even one digit was read.
   */
  function Dtoi(s: string): (r: Scan)
  {
    DtoiFrom(s, 0, 0)
  }

  /** The loop of `dtoi` from index `i` with `n` read so far. */
  function DtoiFrom(s: string, i: nat, n: nat): (r: Scan)
    requires i <= |s|
    ensures i <= r.i <= |s| || (r.i == 0 && !r.ok)
    ensures r.ok ==> 1 <= r.i && (r.i == |s| || !IsDigit(s[r.i]))
    ensures !r.ok ==> r.i == 0 || r.n == Big
    ensures r.ok ==> forall j :: i <= j < r.i ==> IsDigit(s[j])
    ensures AllDigits(s[..i]) && n == DigitsValue(s[..i]) && r.ok ==> AllDigits(s[..r.i]) && r.n == DigitsValue(s[..r.i])
    decreases |s| - i
  {
    if i < |s| && IsDigit(s[i]) then
      var n' := n * 10 + DigitValue(s[i]);
      assert s[..i + 1][..i] == s[..i];
      if n' >= Big then Scan(Big, i, false) else DtoiFrom(s, i + 1, n')
    else if i == 0 then Scan(0, 0, false)
    else Scan(n, i, true)
  }

  /** A longer run of digits is worth at least as much as its prefix. */
  lemma {:induction false} PrefixValueAtMost(s: string, j: nat)
    requires AllDigits(s) && j <= |s|
    ensures AllDigits(s[..j]) && DigitsValue(s[..j]) <= DigitsValue(s)
  {
    if j < |s| {
      var p := s[..|s| - 1];
      assert p[..j] == s[..j];
      PrefixValueAtMost(p, j);
      assert DigitsValue(s) == 10 * DigitsValue(p) + DigitValue(s[|s| - 1]);
    } else {
      assert s[..j] == s;
    }
  }

  /**
   * The scan consumes the whole string exactly when the string is one or more digits
   * whose value stays under the cutoff, and then it reads that value.
   */
  lemma {:induction false} DtoiFromWhole(s: string, i: nat, n: nat)
    requires i <= |s| && AllDigits(s[..i]) && n == DigitsValue(s[..i]) && n < Big
    ensures var r := DtoiFrom(s, i, n);
      (r.ok && r.i == |s| <==> |s| >= 1 && AllDigits(s) && DigitsValue(s) < Big)
      && (r.ok && r.i == |s| ==> r.n == DigitsValue(s))
    decreases |s| - i
  {
    if i < |s| && IsDigit(s[i]) {
      var q := s[..i + 1];
      assert q[..i] == s[..i];
      var n' := n * 10 + DigitValue(s[i]);
      assert AllDigits(q) && n' == DigitsValue(q);
      if n' >= Big {
        if AllDigits(s) {
          PrefixValueAtMost(s, i + 1);
        }
      } else {
        DtoiFromWhole(s, i + 1, n');
      }
    } else if i < |s| {
      assert !AllDigits(s);
    } else {
      assert s[..i] == s;
    }
  }

  /**
   * The prefix-length test of `net.ParseCIDR`: `dtoi` succeeds, consumes the whole
   * text, and reads at most 32.
   */
  function ParsePrefix(mask: string): (r: Option<nat>)
    ensures r.Some? <==> |mask| >= 1 && AllDigits(mask) && DigitsValue(mask) <= 32
    ensures r.Some? ==> r.value == DigitsValue(mask)
  {
    var d := Dtoi(mask);
    DtoiFromWhole(mask, 0, 0);
    if d.ok && d.i == |mask| && d.n <= 32 then Some(d.n) else None
  }

  /**
   * One field of a dotted quad: one or more digits, no leading zero, at most 255.
   * A field that parses is exactly the canonical text of its value.
   */
  function ParseOctet(s: string): (r: Option<nat>)
    ensures r.Some? ==> r.value <= 255 && Itoa(r.value) == s
    ensures forall v :: v <= 255 && Itoa(v) == s ==> r == Some(v)
  {
    if |s| == 0 || !AllDigits(s) || (|s| > 1 && s[0] == '0') then None
    else if DigitsValue(s) > 255 then None
    else
      ItoaOfDigits(s);
      Some(DigitsValue(s))
  }

  // ---------------------------------------------------------------------------
  // strings.IndexByte, strings.Split and strings.Join for a one-character separator
  // ---------------------------------------------------------------------------

  /** The index of the first occurrence of `c` in `s`, if any. */
  function IndexOf(s: string, c: char): (r: Option<nat>)
    ensures r.None? <==> c !in s
    ensures r.Some? ==> r.value < |s| && s[r.value] == c && c !in s[..r.value]
  {
    if s == [] then None
    else if s[0] == c then Some(0)
    else
      match IndexOf(s[1..], c)
      case None => None
      case Some(i) =>
        assert s[..i + 1] == [s[0]] + s[1..][..i];
        Some(i + 1)
  }

  /** `strings.Join(parts, sep)`. */
  function Join(parts: seq<string>, sep: char): (s: string)
  {
    if |parts| == 0 then ""
    else if |parts| == 1 then parts[0]
    else parts[0] + [sep] + Join(parts[1..], sep)
  }

  /** `strings.Split(s, sep)`: the pieces between separators; joining them gives `s` back. */
  function Split(s: string, sep: char): (parts: seq<string>)
    ensures |parts| >= 1
    ensures forall i :: 0 <= i < |parts| ==> sep !in parts[i]
    ensures Join(parts, sep) == s
    decreases |s|
  {
    match IndexOf(s, sep)
    case None => [s]
    case Some(i) =>
      var rest := Split(s[i + 1..], sep);
      var parts := [s[..i]] + rest;
      assert parts[1..] == rest;
      assert s == s[..i] + [sep] + s[i + 1..];
      parts
  }

  /** The first separator in `x + [sep] + y` is the one after `x` when `x` has none. */
  lemma {:induction false} IndexOfAfter(x: string, sep: char, y: string)
    requires sep !in x
    ensures IndexOf(x + [sep] + y, sep) == Some(|x|)
  {
    if x != [] {
      assert (x + [sep] + y)[1..] == x[1..] + [sep] + y;
      IndexOfAfter(x[1..], sep, y);
    }
  }

  /** The first occurrence of `c` in `x` is still the first one in `x + y`. */
  lemma {:induction false} IndexOfPrefix(x: string, y: string, c: char)
    requires c in x
    ensures IndexOf(x + y, c) == IndexOf(x, c)
  {
    if x[0] != c {
      assert (x + y)[1..] == x[1..] + y;
      IndexOfPrefix(x[1..], y, c);
    }
  }

  /** Splitting a join of separator-free pieces gives the pieces back. */
  lemma {:induction false} SplitJoin(parts: seq<string>, sep: char)
    requires |parts| >= 1
    requires forall i :: 0 <= i < |parts| ==> sep !in parts[i]
    ensures Split(Join(parts, sep), sep) == parts
  {
    if |parts| > 1 {
      var head, tail := parts[0], parts[1..];
      var s := Join(parts, sep);
      assert s == head + [sep] + Join(tail, sep);
      IndexOfAfter(head, sep, Join(tail, sep));
      assert s[|head| + 1..] == Join(tail, sep);
      assert s[..|head|] == head;
      SplitJoin(tail, sep);
    }
  }

  // ---------------------------------------------------------------------------
  // Dotted-quad IPv4 addresses
  // ---------------------------------------------------------------------------

  /** The address whose octets are `a.b.c.d`. */
  function Quad(a: nat, b: nat, c: nat, d: nat): (r: Addr)
    requires a <= 255 && b <= 255 && c <= 255 && d <= 255
  {
    ((a * 256 + b) * 256 + c) * 256 + d
  }

  /** The four octets of an address, most significant first. */
  function Octets(x: Addr): (o: seq<nat>)
    ensures |o| == 4 && o[0] <= 255 && o[1] <= 255 && o[2] <= 255 && o[3] <= 255
    ensures Quad(o[0], o[1], o[2], o[3]) == x
  {
    var q1 := x / 256;
    var q2 := q1 / 256;
    var q3 := q2 / 256;
    assert x == 256 * q1 + x % 256;
    assert q1 == 256 * q2 + q1 % 256;
    assert q2 == 256 * q3 + q2 % 256;
    [q3, q2 % 256, q1 % 256, x % 256]
  }

  /** `IP.String()` for a 4-byte address: four decimal octets joined by dots. */
  function FormatIPv4(x: Addr): (s: string)
  {
    var o := Octets(x);
    Join([Itoa(o[0]), Itoa(o[1]), Itoa(o[2]), Itoa(o[3])], '.')
  }

  /**
   * The IPv4 branch of `netip.ParseAddr`: exactly four dot-separated fields, each
   * a canonical decimal octet. Anything else (including every IPv6 form) fails.
   */
  function ParseIPv4(s: string): (r: Option<Addr>)
    ensures r.Some? ==> FormatIPv4(r.value) == s
  {
    var f := Split(s, '.');
    if |f| != 4 then None
    else
      match (ParseOctet(f[0]), ParseOctet(f[1]), ParseOctet(f[2]), ParseOctet(f[3]))
      case (Some(a), Some(b), Some(c), Some(d)) =>
        var x := Quad(a, b, c, d);
        QuadOctets(a, b, c, d);
        assert [Itoa(a), Itoa(b), Itoa(c), Itoa(d)] == f;
        Some(x)
      case _ => None
  }

  /** `Octets` undoes `Quad`. */
  lemma QuadOctets(a: nat, b: nat, c: nat, d: nat)
    requires a <= 255 && b <= 255 && c <= 255 && d <= 255
    ensures Octets(Quad(a, b, c, d)) == [a, b, c, d]
  {
    var x := Quad(a, b, c, d);
    var q1 := (a * 256 + b) * 256 + c;
    assert x / 256 == q1 && x % 256 == d;
    assert q1 / 256 == a * 256 + b && q1 % 256 == c;
    assert (a * 256 + b) / 256 == a && (a * 256 + b) % 256 == b;
  }

  /** The text of `a.b.c.d` is the four octets' decimal texts joined by dots. */
  lemma FormatQuad(a: nat, b: nat, c: nat, d: nat)
    requires a <= 255 && b <= 255 && c <= 255 && d <= 255
    ensures FormatIPv4(Quad(a, b, c, d)) == Itoa(a) + "." + Itoa(b) + "." + Itoa(c) + "." + Itoa(d)
  {
    QuadOctets(a, b, c, d);
    var parts := [Itoa(a), Itoa(b), Itoa(c), Itoa(d)];
    assert parts[1..] == [Itoa(b), Itoa(c), Itoa(d)];
    assert [Itoa(b), Itoa(c), Itoa(d)][1..] == [Itoa(c), Itoa(d)];
    assert [Itoa(c), Itoa(d)][1..] == [Itoa(d)];
    assert Join([Itoa(c), Itoa(d)], '.') == Itoa(c) + "." + Itoa(d);
    assert Join([Itoa(b), Itoa(c), Itoa(d)], '.') == Itoa(b) + "." + (Itoa(c) + "." + Itoa(d));
  }

  /** Formatting an address and parsing the text back gives the address. */
  lemma FormatParseIPv4(x: Addr)
    ensures ParseIPv4(FormatIPv4(x)) == Some(x)
  {
    var o := Octets(x);
    var parts := [Itoa(o[0]), Itoa(o[1]), Itoa(o[2]), Itoa(o[3])];
    forall i | 0 <= i < 4 ensures '.' !in parts[i] {
      assert AllDigits(parts[i]);
    }
    SplitJoin(parts, '.');
  }

  /** A text parses to `x` exactly when it is the dotted-quad text of `x`. */
  lemma ParseIPv4Exactly(s: string, x: Addr)
    ensures ParseIPv4(s) == Some(x) <==> s == FormatIPv4(x)
  {
    FormatParseIPv4(x);
  }

  /** A dotted quad holds only digits and dots, so never a `/`. */
  lemma FormatIPv4NoSlash(x: Addr)
    ensures '/' !in FormatIPv4(x)
  {
    var o := Octets(x);
    var parts := [Itoa(o[0]), Itoa(o[1]), Itoa(o[2]), Itoa(o[3])];
    assert forall i :: 0 <= i < 4 ==> AllDigits(parts[i]);
    JoinNoChar(parts, '.', '/');
  }

  lemma {:induction false} JoinNoChar(parts: seq<string>, sep: char, c: char)
    requires c != sep
    requires forall i :: 0 <= i < |parts| ==> c !in parts[i]
    ensures c !in Join(parts, sep)
  {
    if |parts| > 1 {
      JoinNoChar(parts[1..], sep, c);
    }
  }

  // ---------------------------------------------------------------------------
  // Prefix masks
  // ---------------------------------------------------------------------------

  function Pow2(k: nat): (p: nat)
    ensures p >= 1
  {
    if k == 0 then 1 else 2 * Pow2(k - 1)
  }

  /**
   * `ip.Mask(CIDRMask(prefix, 32))`: the address with its low `32 - prefix` bits
   * cleared, i.e. the largest multiple of 2^(32 - prefix) not above it.
   */
  function Mask(a: Addr, prefix: nat): (m: Addr)
    requires prefix <= 32
    ensures m <= a && a - m < Pow2(32 - prefix)
    ensures m % Pow2(32 - prefix) == 0
  {
    var p := Pow2(32 - prefix);
    RoundDown(a, p);
    a - a % p
  }

  lemma MulAtLeast(k: int, p: int)
    requires k >= 1 && p >= 1
    ensures k * p >= p
  {
    assert k * p == p + (k - 1) * p;
  }

  /** Euclidean division is unique. */
  lemma DivModUnique(a: int, p: int, q: int, r: int)
    requires p >= 1 && 0 <= r < p && a == q * p + r
    ensures a / p == q && a % p == r
  {
    var q', r' := a / p, a % p;
    assert q' * p + r' == q * p + r;
    if q' < q {
      assert (q - q') * p == r' - r;
      MulAtLeast(q - q', p);
    } else if q' > q {
      assert (q' - q) * p == r - r';
      MulAtLeast(q' - q, p);
    }
  }

  /** Rounding a natural number down to a multiple of `p` stays in range and is a multiple of `p`. */
  lemma RoundDown(a: int, p: int)
    requires p >= 1 && a >= 0
    ensures 0 <= a - a % p <= a && a % p < p
    ensures (a - a % p) % p == 0
  {
    if a < p {
      DivModUnique(a, p, 0, a);
    }
    DivModUnique(a - a % p, p, a / p, 0);
  }

  /** A network is canonical when its base has no host bits set, as every parsed network has. */
  predicate Canonical(n: Network) {
    n.prefix <= 32 && Mask(n.base, n.prefix) == n.base
  }

  /** Masking an address that is already a multiple of the block size leaves it alone. */
  lemma MaskIdempotent(a: Addr, prefix: nat)
    requires prefix <= 32
    ensures Mask(Mask(a, prefix), prefix) == Mask(a, prefix)
  {
  }

  /** Whether `a` lies in network `n`. */
  predicate InNetwork(a: Addr, n: Network)
    requires n.prefix <= 32
  {
    Mask(a, n.prefix) == n.base
  }

  // ---------------------------------------------------------------------------
  // net.ParseCIDR and IPNet.String
  // ---------------------------------------------------------------------------

  /** The network `net.ParseCIDR` builds from a parsed address and prefix, if both parsed. */
  function NetworkOf(addr: Option<Addr>, prefix: Option<nat>): (r: Option<Network>)
  {
    if addr.Some? && prefix.Some? && prefix.value <= 32
    then Some(Network(Mask(addr.value, prefix.value), prefix.value))
    else None
  }

  /**
   * `net.ParseCIDR(s)`: cut at the first `/`, parse an IPv4 address before it and a
   * decimal prefix of at most 32 after it; the result is the masked network.
   */
  function ParseCidr(s: string): (r: Option<Network>)
    ensures r.Some? ==> Canonical(r.value)
    ensures r.Some? ==> '/' in s
  {
    match IndexOf(s, '/')
    case None => None
    case Some(i) =>
      var addr, prefix := ParseIPv4(s[..i]), ParsePrefix(s[i + 1..]);
      if addr.Some? && prefix.Some? && prefix.value <= 32 then
        MaskIdempotent(addr.value, prefix.value);
        NetworkOf(addr, prefix)
      else None
  }

  /** `IPNet.String()` for an IPv4 network with a canonical mask: `a.b.c.d/n`. */
  function NetworkString(n: Network): (s: string)
  {
    FormatIPv4(n.base) + "/" + Itoa(n.prefix)
  }

  /** Cutting `addr/mask` at the first slash: the slash appended is the first one unless `addr` already has one. */
  lemma ParseJoined(addr: string, mask: string)
    ensures ParseCidr(addr + "/" + mask) == NetworkOf(ParseIPv4(addr), ParsePrefix(mask))
  {
    var s := addr + "/" + mask;
    if '/' !in addr {
      IndexOfAfter(addr, '/', mask);
      assert s[..|addr|] == addr && s[|addr| + 1..] == mask;
    } else {
      IndexOfPrefix(addr, "/" + mask, '/');
      assert s == addr + ("/" + mask);
      var i := IndexOf(addr, '/').value;
      assert s[i + 1..][|addr| - i - 1] == '/';
      assert !IsDigit(s[i + 1..][|addr| - i - 1]);
      assert ParsePrefix(s[i + 1..]).None?;
      if ParseIPv4(addr).Some? {
        FormatIPv4NoSlash(ParseIPv4(addr).value);
      }
      assert ParseIPv4(addr).None?;
    }
  }

  /** Parsing the text of a canonical network gives the network back. */
  lemma ParseNetworkString(n: Network)
    requires Canonical(n)
    ensures ParseCidr(NetworkString(n)) == Some(n)
  {
    ParseJoined(FormatIPv4(n.base), Itoa(n.prefix));
    FormatParseIPv4(n.base);
  }

  /** The text of canonical networks tells them apart. */
  lemma NetworkStringInjective(m: Network, n: Network)
    requires Canonical(m) && Canonical(n)
    ensures NetworkString(m) == NetworkString(n) <==> m == n
  {
    if NetworkString(m) == NetworkString(n) {
      ParseNetworkString(m);
      ParseNetworkString(n);
    }
  }

  // ---------------------------------------------------------------------------
  // The per-entry test of Server.route
  // ---------------------------------------------------------------------------

  /**
   * Whether a route-table entry with CIDR text `cidr` claims destination `dst`:
   * parse the entry's CIDR, split it at `/`, parse `dst` with the entry's own prefix
   * text, and compare the two networks' string forms.
   */
  predicate Matches(cidr: string, dst: string)
  {
    match ParseCidr(cidr)
    case None => false
    case Some(ipnet) =>
      var sp := Split(cidr, '/');
      |sp| == 2 &&
      match ParseCidr(dst + "/" + sp[1])
      case None => false
      case Some(dstNet) => NetworkString(ipnet) == NetworkString(dstNet)
  }

  lemma DigitsHaveNoSlash(t: string)
    requires AllDigits(t)
    ensures '/' !in t
  {
    forall j | 0 <= j < |t| ensures t[j] != '/' {
      assert IsDigit(t[j]);
    }
  }

  /** A CIDR text that parses has exactly one slash, so `strings.Split` on it gives two pieces. */
  lemma ParsedCidrSplits(cidr: string)
    requires ParseCidr(cidr).Some?
    ensures |Split(cidr, '/')| == 2
    ensures ParseCidr(cidr) == NetworkOf(ParseIPv4(Split(cidr, '/')[0]), ParsePrefix(Split(cidr, '/')[1]))
  {
    var i := IndexOf(cidr, '/').value;
    var head, tail := cidr[..i], cidr[i + 1..];
    assert ParseCidr(cidr) == NetworkOf(ParseIPv4(head), ParsePrefix(tail));
    DigitsHaveNoSlash(tail);
    assert Split(tail, '/') == [tail];
    assert Split(cidr, '/') == [head] + Split(tail, '/');
  }

  /**
   * The intended meaning of a route-table entry: its CIDR text parses, `dst` is a
   * dotted quad, and `dst` lies in the entry's network.
   */
  predicate Claims(cidr: string, dst: string)
  {
    ParseCidr(cidr).Some? && ParseIPv4(dst).Some? && InNetwork(ParseIPv4(dst).value, ParseCidr(cidr).value)
  }

  /**
   * The meaning of `Matches`: the entry's CIDR parses to a network, `dst` is a dotted
   * quad, and `dst` masked to the entry's prefix is the entry's network address.
   */
  lemma MatchesIffClaims(cidr: string, dst: string)
    ensures Matches(cidr, dst) <==> Claims(cidr, dst)
  {
    if ParseCidr(cidr).Some? {
      var ipnet := ParseCidr(cidr).value;
      ParsedCidrSplits(cidr);
      var sp := Split(cidr, '/');
      assert ParsePrefix(sp[1]) == Some(ipnet.prefix);
      ParseJoined(dst, sp[1]);
      if ParseIPv4(dst).Some? {
        var d := ParseIPv4(dst).value;
        var dstNet := Network(Mask(d, ipnet.prefix), ipnet.prefix);
        assert ParseCidr(dst + "/" + sp[1]) == Some(dstNet);
        NetworkStringInjective(ipnet, dstNet);
      } else {
        assert ParseCidr(dst + "/" + sp[1]).None?;
      }
    }
  }

  // ---------------------------------------------------------------------------
  // Overlapping entries
  // ---------------------------------------------------------------------------

  /** Every address of `inner` lies in `outer`. */
  predicate Contains(outer: Network, inner: Network)
    requires outer.prefix <= 32
  {
    outer.prefix <= inner.prefix && Mask(inner.base, outer.prefix) == outer.base
  }

  /** Two networks overlap exactly when one contains the other. */
  predicate Overlap(m: Network, n: Network)
    requires m.prefix <= 32 && n.prefix <= 32
  {
    Contains(m, n) || Contains(n, m)
  }

  lemma {:induction false} Pow2Add(a: nat, b: nat)
    ensures Pow2(a + b) == Pow2(a) * Pow2(b)
  {
    if a > 0 {
      Pow2Add(a - 1, b);
    }
  }

  /** `Mask(a, prefix)` is the only multiple of the block size within one block below `a`. */
  lemma MaskUnique(a: Addr, prefix: nat, x: int)
    requires prefix <= 32
    requires x % Pow2(32 - prefix) == 0 && 0 <= x <= a < x + Pow2(32 - prefix)
    ensures Mask(a, prefix) == x
  {
    RoundDownUnique(a, Pow2(32 - prefix), x);
  }

  /** The multiple of `p` within `p` below `a` is `a` rounded down. */
  lemma RoundDownUnique(a: int, p: int, x: int)
    requires p >= 1 && x % p == 0 && 0 <= x <= a < x + p
    ensures a - a % p == x
  {
    var q := x / p;
    assert x == q * p + x % p;
    DivModUnique(a, p, q, a - x);
  }

  /** Distinct multiples of `p` are at least `p` apart. */
  lemma MultiplesApart(x: int, y: int, p: int)
    requires p >= 1 && x % p == 0 && y % p == 0 && x < y
    ensures x + p <= y
  {
    var qx, qy := x / p, y / p;
    assert x == qx * p && y == qy * p;
    assert y - x == (qy - qx) * p;
    MulSign(qy - qx, p);
  }

  lemma MulSign(k: int, p: int)
    requires p >= 1
    ensures k >= 1 ==> k * p >= p
    ensures k <= 0 ==> k * p <= 0
  {
    if k >= 1 {
      MulAtLeast(k, p);
    } else {
      assert k * p == -((-k) * p);
    }
  }

  /** A multiple of `p * k` is a multiple of `p`. */
  lemma MultipleOfFactor(x: int, p: int, k: int)
    requires p >= 1 && k >= 1 && x % (p * k) == 0
    ensures x % p == 0
  {
    MulAtLeast(k, p);
    assert x == (x / (p * k)) * (p * k);
    DivModUnique(x, p, (x / (p * k)) * k, 0);
  }

  /** Masking to a long prefix and then to a shorter one is masking to the shorter one. */
  lemma MaskNested(d: Addr, short: nat, long: nat)
    requires short <= long <= 32
    ensures Mask(Mask(d, long), short) == Mask(d, short)
  {
    var m1, m2 := Mask(d, short), Mask(d, long);
    var p1, p2 := Pow2(32 - short), Pow2(32 - long);
    Pow2Add(32 - long, long - short);
    assert 32 - short == (32 - long) + (long - short);
    MultipleOfFactor(m1, p2, Pow2(long - short));
    if m2 < m1 {
      MultiplesApart(m2, m1, p2);
    }
    MaskUnique(m2, short, m1);
  }

  /**
   * Two entries that both claim the same destination have overlapping networks, so
   * when no two entries overlap at most one entry matches any destination and the
   * unspecified iteration order of the lookup cannot change its answer.
   */
  lemma MatchingEntriesOverlap(c1: string, c2: string, dst: string)
    requires Matches(c1, dst) && Matches(c2, dst)
    ensures Overlap(ParseCidr(c1).value, ParseCidr(c2).value)
  {
    MatchesIffClaims(c1, dst);
    MatchesIffClaims(c2, dst);
    var n1, n2 := ParseCidr(c1).value, ParseCidr(c2).value;
    var d := ParseIPv4(dst).value;
    if n1.prefix <= n2.prefix {
      MaskNested(d, n1.prefix, n2.prefix);
    } else {
      MaskNested(d, n2.prefix, n1.prefix);
    }
  }

  /** Parsing `a.b.c.d` written out in canonical decimal. */
  lemma ParseDotted(a: nat, b: nat, c: nat, d: nat)
    requires a <= 255 && b <= 255 && c <= 255 && d <= 255
    ensures ParseIPv4(Itoa(a) + "." + Itoa(b) + "." + Itoa(c) + "." + Itoa(d)) == Some(Quad(a, b, c, d))
  {
    FormatQuad(a, b, c, d);
    FormatParseIPv4(Quad(a, b, c, d));
  }

  /** Parsing `a.b.c.d/n` written out in canonical decimal gives the masked network. */
  lemma ParseDottedCidr(a: nat, b: nat, c: nat, d: nat, n: nat)
    requires a <= 255 && b <= 255 && c <= 255 && d <= 255 && n <= 32
    ensures ParseCidr(Itoa(a) + "." + Itoa(b) + "." + Itoa(c) + "." + Itoa(d) + "/" + Itoa(n))
         == Some(Network(Mask(Quad(a, b, c, d), n), n))
  {
    ParseDotted(a, b, c, d);
    ParseJoined(Itoa(a) + "." + Itoa(b) + "." + Itoa(c) + "." + Itoa(d), Itoa(n));
  }

  /** The decimal texts the examples below are written with. */
  lemma ExampleTexts()
    ensures "10.0.1.0/24" == Itoa(10) + "." + Itoa(0) + "." + Itoa(1) + "." + Itoa(0) + "/" + Itoa(24)
    ensures "10.0.2.0/24" == Itoa(10) + "." + Itoa(0) + "." + Itoa(2) + "." + Itoa(0) + "/" + Itoa(24)
    ensures "10.0.1.5" == Itoa(10) + "." + Itoa(0) + "." + Itoa(1) + "." + Itoa(5)
    ensures "10.0.2.9" == Itoa(10) + "." + Itoa(0) + "." + Itoa(2) + "." + Itoa(9)
    ensures "10.0.3.1" == Itoa(10) + "." + Itoa(0) + "." + Itoa(3) + "." + Itoa(1)
  {
  }

  /** The /24 masks of the example addresses. */
  lemma ExampleMasks()
    ensures Mask(Quad(10, 0, 1, 0), 24) == Quad(10, 0, 1, 0)
    ensures Mask(Quad(10, 0, 2, 0), 24) == Quad(10, 0, 2, 0)
    ensures Mask(Quad(10, 0, 1, 5), 24) == Quad(10, 0, 1, 0)
    ensures Mask(Quad(10, 0, 2, 9), 24) == Quad(10, 0, 2, 0)
    ensures Mask(Quad(10, 0, 3, 1), 24) == Quad(10, 0, 3, 0)
  {
    assert Pow2(8) == 256;
  }

  /** The networks 10.0.1.0/24 and 10.0.2.0/24 as the route table holds them. */
  lemma ExampleNetworks()
    ensures ParseCidr("10.0.1.0/24") == Some(Network(Quad(10, 0, 1, 0), 24))
    ensures ParseCidr("10.0.2.0/24") == Some(Network(Quad(10, 0, 2, 0), 24))
  {
    ExampleTexts();
    ExampleMasks();
    ParseDottedCidr(10, 0, 1, 0, 24);
    ParseDottedCidr(10, 0, 2, 0, 24);
  }

  /*
   * Two neighbouring /24 peers, 10.0.1.0/24 and 10.0.2.0/24: each destination is
   * claimed by the peer that owns its subnet and by no other, and an address in
   * neither subnet is claimed by none.
   */

  lemma ExampleFirstSubnet()
    ensures Matches("10.0.1.0/24", "10.0.1.5") && !Matches("10.0.2.0/24", "10.0.1.5")
  {
    ExampleTexts();
    ExampleMasks();
    ExampleDestination(10, 0, 1, 5);
  }

  lemma ExampleSecondSubnet()
    ensures Matches("10.0.2.0/24", "10.0.2.9") && !Matches("10.0.1.0/24", "10.0.2.9")
  {
    ExampleTexts();
    ExampleMasks();
    ExampleDestination(10, 0, 2, 9);
  }

  lemma ExampleNeitherSubnet()
    ensures !Matches("10.0.1.0/24", "10.0.3.1") && !Matches("10.0.2.0/24", "10.0.3.1")
  {
    ExampleTexts();
    ExampleMasks();
    ExampleDestination(10, 0, 3, 1);
  }

  /** Whether the two example entries claim the destination `a.b.c.d`, by its /24 mask. */
  lemma ExampleDestination(a: nat, b: nat, c: nat, d: nat)
    requires a <= 255 && b <= 255 && c <= 255 && d <= 255
    ensures var dst := Itoa(a) + "." + Itoa(b) + "." + Itoa(c) + "." + Itoa(d);
      && (Matches("10.0.1.0/24", dst) <==> Mask(Quad(a, b, c, d), 24) == Quad(10, 0, 1, 0))
      && (Matches("10.0.2.0/24", dst) <==> Mask(Quad(a, b, c, d), 24) == Quad(10, 0, 2, 0))
  {
    var dst := Itoa(a) + "." + Itoa(b) + "." + Itoa(c) + "." + Itoa(d);
    ExampleNetworks();
    ParseDotted(a, b, c, d);
    MatchesIffClaims("10.0.1.0/24", dst);
    MatchesIffClaims("10.0.2.0/24", dst);
  }
}
