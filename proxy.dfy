/**
 * The checks `proxy_handler` makes before forwarding anything: the client must be on
 * a private or loopback IPv4 network (`is_local_ip`), the `url` header must name an
 * allowed Google domain (`is_allowed_domain`), and the `method` header (default GET,
 * upper-cased) must be one of five HTTP methods.
 */
module Proxy {
  import opened Wrappers
  import opened Text

  type U32 = a: int | 0 <= a < 0x1_0000_0000

  /** The result of `ipaddress.ip_address(client_ip)`; Unparseable stands for its ValueError. */
  datatype ParsedIp = V4(addr: U32) | V6(addr6: nat) | Unparseable

  /** An IPv4 network `base/prefixLen`. */
  datatype Network = Network(base: U32, prefixLen: nat)

  function Pow2(n: nat): (r: nat)
    ensures r >= 1
  {
    if n == 0 then 1 else 2 * Pow2(n - 1)
  }

  /**
   * `addr in network`: the first prefixLen bits of addr are those of the base. For a
   * base aligned to the block size this is a contiguous range of addresses.
   */
  predicate InNetwork(addr: U32, net: Network): (b: bool)
    requires net.prefixLen <= 32
    ensures net.base % Pow2(32 - net.prefixLen) == 0 ==>
      (b <==> net.base <= addr < net.base + Pow2(32 - net.prefixLen))
  {
    AlignedBlock(addr, net.base, Pow2(32 - net.prefixLen));
    addr / Pow2(32 - net.prefixLen) == net.base / Pow2(32 - net.prefixLen)
  }

  /** 10.0.0.0/8, 172.16.0.0/12, 192.168.0.0/16, 127.0.0.0/8 */
  const LocalNetworks: seq<Network> := [
    Network(0x0A00_0000, 8), Network(0xAC10_0000, 12), Network(0xC0A8_0000, 16), Network(0x7F00_0000, 8)]

  /** `is_local_ip`: an IPv4 address in one of the local networks; IPv6 and unparseable input are not local. */
  predicate IsLocalIp(ip: ParsedIp): (b: bool)
    ensures b ==> ip.V4?
  {
    ip.V4? && exists k :: 0 <= k < |LocalNetworks| && InNetwork(ip.addr, LocalNetworks[k])
  }

  /** In a block of `size` addresses starting at a multiple of `size`, membership is a range test. */
  lemma AlignedBlock(a: int, base: int, size: int)
    requires 0 <= a && 0 <= base && size > 0
    ensures base % size == 0 ==> (a / size == base / size <==> base <= a < base + size)
  {
    if base % size == 0 {
      var q := base / size;
      assert base == q * size;
      assert a == (a / size) * size + a % size;
      if a / size == q {
        assert base <= a < base + size;
      }
      if base <= a < base + size {
        AlignedQuotient(a - base, a / size - q, a % size, size);
      }
    }
  }

  /** A multiple of size plus a remainder below size lies in [0, size) only for the zero multiple. */
  lemma AlignedQuotient(d: int, k: int, r: int, size: int)
    requires size > 0 && 0 <= r < size && d == k * size + r && 0 <= d < size
    ensures k == 0
  {
    MulSign(k, size);
  }

  lemma MulSign(k: int, size: int)
    requires size > 0
    ensures k >= 1 ==> k * size >= size
    ensures k <= -1 ==> k * size <= -size
  {
    if k >= 1 {
      assert k * size == (k - 1) * size + size;
    }
    if k <= -1 {
      assert k * size == (k + 1) * size - size;
    }
  }

  lemma Pow2Values()
    ensures Pow2(24) == 0x100_0000 && Pow2(20) == 0x10_0000 && Pow2(16) == 0x1_0000
  {
    assert Pow2(8) == 0x100 by {
      assert Pow2(4) == 16;
    }
    assert Pow2(16) == Pow2(8) * Pow2(8) by { Pow2Add(8, 8); }
    assert Pow2(20) == Pow2(16) * Pow2(4) by { Pow2Add(16, 4); }
    assert Pow2(24) == Pow2(16) * Pow2(8) by { Pow2Add(16, 8); }
  }

  lemma {:induction false} Pow2Add(m: nat, n: nat)
    ensures Pow2(m + n) == Pow2(m) * Pow2(n)
  {
    if n > 0 {
      Pow2Add(m, n - 1);
      assert Pow2(m + n) == 2 * Pow2(m + n - 1);
    }
  }

  /**
   * `is_local_ip` in address ranges: exactly 10.0.0.0-10.255.255.255,
   * 172.16.0.0-172.31.255.255, 192.168.0.0-192.168.255.255 and 127.0.0.0-127.255.255.255.
   */
  lemma LocalIpRanges(a: U32)
    ensures IsLocalIp(V4(a)) <==>
      || 0x0A00_0000 <= a < 0x0B00_0000
      || 0xAC10_0000 <= a < 0xAC20_0000
      || 0xC0A8_0000 <= a < 0xC0A9_0000
      || 0x7F00_0000 <= a < 0x8000_0000
  {
    Pow2Values();
    assert InNetwork(a, LocalNetworks[0]) <==> 0x0A00_0000 <= a < 0x0B00_0000;
    assert InNetwork(a, LocalNetworks[1]) <==> 0xAC10_0000 <= a < 0xAC20_0000;
    assert InNetwork(a, LocalNetworks[2]) <==> 0xC0A8_0000 <= a < 0xC0A9_0000;
    assert InNetwork(a, LocalNetworks[3]) <==> 0x7F00_0000 <= a < 0x8000_0000;
  }

  /** `ALLOWED_DOMAINS` with the leading `.*` and the escapes removed. */
  const AllowedSuffixes: seq<string> := [".googleapis.com", ".firebaseio.com", ".cloudfunctions.net", ".google-analytics.com"]

  /**
   * `re.match(".*" + lit, s)` for a literal lit: some prefix of s free of newlines
   * (`.` does not match one) is followed by lit. The match is anchored at the start only.
   */
  function MatchAnyThen(lit: string, s: string): (r: bool)
    ensures r ==> |lit| <= |s| && Contains(s, lit)
    decreases |s|
  {
    ContainsExtends(s, lit);
    StartsWith(s, lit) || (|s| > 0 && s[0] != '\n' && MatchAnyThen(lit, s[1..]))
  }

  /** lit at the front of s, or anywhere after its first character, is in s. */
  lemma ContainsExtends(s: string, lit: string)
    ensures StartsWith(s, lit) ==> Contains(s, lit)
    ensures |s| > 0 && Contains(s[1..], lit) ==> Contains(s, lit)
  {
    if StartsWith(s, lit) {
      assert s[0..] == s;
    }
    if |s| > 0 && Contains(s[1..], lit) {
      var i :| 0 <= i <= |s| - 1 && StartsWith(s[1..][i..], lit);
      assert s[1..][i..] == s[i + 1..];
    }
  }

  /** A match yields a position: everything before it is free of newlines and lit starts there. */
  lemma {:induction false} MatchHasPosition(lit: string, s: string) returns (i: nat)
    requires MatchAnyThen(lit, s)
    ensures i <= |s| && '\n' !in s[..i] && StartsWith(s[i..], lit)
    decreases |s|
  {
    if StartsWith(s, lit) {
      i := 0;
      assert s[0..] == s;
    } else {
      var i' := MatchHasPosition(lit, s[1..]);
      i := i' + 1;
      assert s[..i] == [s[0]] + s[1..][..i'];
      assert s[i..] == s[1..][i'..];
    }
  }

  /** A position with no newline before it where lit starts gives a match. */
  lemma {:induction false} PositionMatches(lit: string, s: string, i: nat)
    requires i <= |s| && '\n' !in s[..i] && StartsWith(s[i..], lit)
    ensures MatchAnyThen(lit, s)
    decreases i
  {
    if i == 0 {
      assert s[0..] == s;
    } else {
      assert s[0] in s[..i];
      assert s[1..][..i - 1] == s[..i][1..];
      assert s[1..][i - 1..] == s[i..];
      PositionMatches(lit, s[1..], i - 1);
    }
  }

  /** The regular-expression match in terms of positions. */
  lemma MatchAnyThenSpec(lit: string, s: string)
    ensures MatchAnyThen(lit, s) <==> exists i :: 0 <= i <= |s| && '\n' !in s[..i] && StartsWith(s[i..], lit)
  {
    if MatchAnyThen(lit, s) {
      var i := MatchHasPosition(lit, s);
    }
    forall i | 0 <= i <= |s| && '\n' !in s[..i] && StartsWith(s[i..], lit)
      ensures MatchAnyThen(lit, s)
    {
      PositionMatches(lit, s, i);
    }
  }

  /** Without a newline in s, matching is the same as containing lit anywhere. */
  lemma MatchIsContains(lit: string, s: string)
    requires '\n' !in s
    ensures MatchAnyThen(lit, s) <==> Contains(s, lit)
  {
    MatchAnyThenSpec(lit, s);
    if Contains(s, lit) {
      var i :| 0 <= i <= |s| && StartsWith(s[i..], lit);
      assert forall c :: c in s[..i] ==> c in s;
    }
  }

  /** `is_allowed_domain`: netloc is the result of `urlparse(url).netloc`, None when urlparse raises. */
  predicate IsAllowedDomain(netloc: Option<string>): (b: bool)
    ensures b ==> netloc.Some? && exists k :: 0 <= k < |AllowedSuffixes| && Contains(netloc.value, AllowedSuffixes[k])
  {
    netloc.Some? && exists k :: 0 <= k < |AllowedSuffixes| && MatchAnyThen(AllowedSuffixes[k], netloc.value)
  }

  /**
   * A netloc without newlines is allowed exactly when it contains one of the four
   * suffixes somewhere: the pattern is not anchored at the end.
   */
  lemma AllowedDomainIsContains(netloc: string)
    requires '\n' !in netloc
    ensures IsAllowedDomain(Some(netloc)) <==> exists k :: 0 <= k < |AllowedSuffixes| && Contains(netloc, AllowedSuffixes[k])
  {
    forall k | 0 <= k < |AllowedSuffixes|
      ensures MatchAnyThen(AllowedSuffixes[k], netloc) <==> Contains(netloc, AllowedSuffixes[k])
    {
      MatchIsContains(AllowedSuffixes[k], netloc);
    }
  }

  /** The bare domain "googleapis.com" has no leading dot and is refused. */
  lemma BareDomainRefused(netloc: string)
    requires netloc == "googleapis.com"
    ensures !IsAllowedDomain(Some(netloc))
  {
    assert |netloc| == 14;
    assert forall k :: 0 <= k < |AllowedSuffixes| ==> |AllowedSuffixes[k]| > |netloc|;
  }

  /** A host that merely contains ".googleapis.com" before another domain is still allowed. */
  lemma UnanchoredEndAllowed(netloc: string)
    requires netloc == "a.googleapis.com.example.net"
    ensures IsAllowedDomain(Some(netloc))
  {
    assert netloc[1..][..15] == ".googleapis.com";
    assert netloc[0] == 'a';
    assert MatchAnyThen(AllowedSuffixes[0], netloc[1..]);
  }

  const AllowedMethods: seq<string> := ["GET", "POST", "PUT", "DELETE", "PATCH"]

  /** `str.upper()` on ASCII letters. */
  function UpperAscii(s: string): (r: string)
    ensures |r| == |s|
    ensures forall i :: 0 <= i < |s| ==> r[i] == if 'a' <= s[i] <= 'z' then (s[i] as int - 32) as char else s[i]
  {
    if |s| == 0 then []
    else [if 'a' <= s[0] <= 'z' then (s[0] as int - 32) as char else s[0]] + UpperAscii(s[1..])
  }

  /** What `proxy_handler` does before forwarding: reject with a status, or forward. */
  datatype ProxyDecision = Reject(status: int, reason: string) | Forward(verb: string, url: string)

  /**
   * The ordered checks of `proxy_handler`. `netlocOf` stands for `urlparse(url).netloc`
   * (None when urlparse raises); `methodHeader` is the `method` header, if any.
   */
  function ValidateProxyRequest(remote: ParsedIp, urlHeader: Option<string>, netlocOf: string -> Option<string>,
                                methodHeader: Option<string>): (d: ProxyDecision)
    ensures !IsLocalIp(remote) ==> d == Reject(403, "Access denied: Local network only")
    ensures d.Forward? <==>
      && IsLocalIp(remote)
      && urlHeader.Some? && urlHeader.value != "" && IsAllowedDomain(netlocOf(urlHeader.value))
      && UpperAscii(methodHeader.GetOr("GET")) in AllowedMethods
    ensures d.Forward? ==> d.url == urlHeader.value && d.verb == UpperAscii(methodHeader.GetOr("GET"))
    ensures d.Reject? && d.status == 400 ==>
      IsLocalIp(remote) && urlHeader.Some? && IsAllowedDomain(netlocOf(urlHeader.value))
    ensures d.Reject? ==> d.status == 403 || d.status == 400
    ensures IsLocalIp(remote) && (urlHeader.None? || urlHeader.value == "" || !IsAllowedDomain(netlocOf(urlHeader.value))) ==>
      d == Reject(403, "Invalid or forbidden URL")
    ensures && IsLocalIp(remote) && urlHeader.Some? && urlHeader.value != "" && IsAllowedDomain(netlocOf(urlHeader.value))
            && UpperAscii(methodHeader.GetOr("GET")) !in AllowedMethods ==>
      d == Reject(400, "Invalid HTTP method")
  {
    if !IsLocalIp(remote) then Reject(403, "Access denied: Local network only")
    else if urlHeader.None? || urlHeader.value == "" || !IsAllowedDomain(netlocOf(urlHeader.value)) then
      Reject(403, "Invalid or forbidden URL")
    else
      var verb := UpperAscii(methodHeader.GetOr("GET"));
      if verb !in AllowedMethods then Reject(400, "Invalid HTTP method")
      else Forward(verb, urlHeader.value)
  }

  /** Without a `method` header the request is forwarded as GET; a lower-case method is accepted. */
  lemma MethodDefaultsAndCase(remote: ParsedIp, url: string, netlocOf: string -> Option<string>)
    requires IsLocalIp(remote) && url != "" && IsAllowedDomain(netlocOf(url))
    ensures ValidateProxyRequest(remote, Some(url), netlocOf, None) == Forward("GET", url)
    ensures ValidateProxyRequest(remote, Some(url), netlocOf, Some("post")) == Forward("POST", url)
  {
    assert UpperAscii("GET") == "GET";
    assert UpperAscii("post") == "POST";
  }
}
