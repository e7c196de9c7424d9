/** Cookie domains (cookie.c): matching a host against a cookie's domain, and the hash that picks the one
    bucket a look-up reads. Text is the characters of a C string, without its NUL. */
module CookieDomain {
  import opened Bytes

  const BUCKETS := 63

  // ---------- letter case ----------

  function UpperChar(c: char): char {
    if 'a' <= c <= 'z' then (c as int - 32) as char else c
  }

  function Upper(s: string): (u: string)
    ensures |u| == |s|
  {
    seq(|s|, i requires 0 <= i < |s| => UpperChar(s[i]))
  }

  /** `strcasecompare`. */
  predicate EqualFold(a: string, b: string) {
    Upper(a) == Upper(b)
  }

  /** `strncasecompare` over the first `n` characters; a string that ends before that differs. */
  predicate EqualFoldUpTo(a: string, b: string, n: nat) {
    n <= |a| && n <= |b| && EqualFold(a[..n], b[..n])
  }

  lemma UpperSlice(s: string, lo: nat, hi: nat)
    requires lo <= hi <= |s|
    ensures Upper(s)[lo..hi] == Upper(s[lo..hi])
  {
  }

  lemma UpperTwice(s: string)
    ensures Upper(Upper(s)) == Upper(s)
  {
  }

  lemma UpperDots(s: string, i: nat)
    requires i < |s|
    ensures Upper(s)[i] == '.' <==> s[i] == '.'
  {
  }

  // ---------- matching ----------

  /** `cookie_tailmatch`: the host is the domain, or ends in a dot and the domain. */
  predicate TailMatch(domain: string, host: string) {
    && |host| >= |domain|
    && EqualFoldUpTo(domain, host[|host| - |domain|..], |domain|)
    && (|host| == |domain| || host[|host| - |domain| - 1] == '.')
  }

  /** The place of the last dot, or -1. */
  function LastDot(s: string): (r: int)
    ensures -1 <= r < |s|
  {
    if s == "" then -1
    else if s[|s| - 1] == '.' then |s| - 1
    else LastDot(s[..|s| - 1])
  }

  /** `get_top_domain`: what follows the last dot but one. */
  function TopDomain(domain: string): string {
    var last := LastDot(domain);
    if last < 0 then domain
    else domain[LastDot(domain[..last]) + 1..]
  }

  lemma {:induction false} LastDotThere(s: string)
    ensures var r := LastDot(s);
      && (r >= 0 ==> s[r] == '.')
      && (forall i :: r < i < |s| ==> s[i] != '.')
      && ('.' in s <==> r >= 0)
    decreases |s|
  {
    if s != "" && s[|s| - 1] != '.' {
      LastDotThere(s[..|s| - 1]);
    }
  }

  lemma LastDotIs(s: string, r: int)
    requires -1 <= r < |s| && (r >= 0 ==> s[r] == '.') && forall i :: r < i < |s| ==> s[i] != '.'
    ensures LastDot(s) == r
  {
    LastDotThere(s);
  }

  lemma TopOfUpper(s: string)
    ensures TopDomain(Upper(s)) == Upper(TopDomain(s))
  {
    DotOfUpper(s);
    var last := LastDot(s);
    if last >= 0 {
      DotOfUpper(s[..last]);
      UpperSlice(s, 0, last);
      UpperSlice(s, LastDot(s[..last]) + 1, |s|);
    }
  }

  lemma DotOfUpper(s: string)
    ensures LastDot(Upper(s)) == LastDot(s)
  {
    forall i | 0 <= i < |s|
      ensures Upper(s)[i] == '.' <==> s[i] == '.'
    {
      UpperDots(s, i);
    }
    LastDotThere(s);
    LastDotIs(Upper(s), LastDot(s));
  }

  lemma LastDotShift(front: string, s: string)
    requires LastDot(s) >= 0
    ensures LastDot(front + s) == |front| + LastDot(s)
  {
    LastDotThere(s);
    forall i | |front| + LastDot(s) < i < |front + s|
      ensures (front + s)[i] != '.'
    {
      assert (front + s)[i] == s[i - |front|];
    }
    LastDotIs(front + s, |front| + LastDot(s));
  }

  lemma LastDotDotless(front: string, s: string)
    requires LastDot(s) < 0 && front != "" && front[|front| - 1] == '.'
    ensures LastDot(front + s) == |front| - 1
  {
    LastDotThere(s);
    forall i | |front| <= i < |front + s|
      ensures (front + s)[i] != '.'
    {
      assert (front + s)[i] == s[i - |front|];
    }
    LastDotIs(front + s, |front| - 1);
  }

  lemma SliceBehind(front: string, s: string, k: nat)
    requires k <= |s|
    ensures (front + s)[|front| + k..] == s[k..] && (front + s)[..|front| + k] == front + s[..k]
  {
  }

  lemma TopIs(s: string, last: nat, start: nat)
    requires LastDot(s) == last < |s| && LastDot(s[..last]) + 1 == start <= |s|
    ensures TopDomain(s) == s[start..]
  {
  }

  lemma ShiftBoth(front: string, s: string)
    requires front != "" && front[|front| - 1] == '.'
    ensures LastDot(front + s) == |front| + LastDot(s)
  {
    if LastDot(s) < 0 {
      LastDotDotless(front, s);
    } else {
      LastDotShift(front, s);
    }
  }

  lemma TopBehind(front: string, domain: string, host: string, last: nat)
    requires front != "" && front[|front| - 1] == '.' && host == front + domain && LastDot(domain) == last
    ensures TopDomain(host) == TopDomain(domain)
  {
    hide LastDot;
    var before, start := domain[..last], LastDot(domain[..last]) + 1;
    ShiftBoth(front, domain);
    ShiftBoth(front, before);
    SliceBehind(front, domain, last);
    SliceBehind(front, domain, start);
    TopIs(host, |front| + last, |front| + start);
  }

  /** A host that ends in a dot and the domain has the same top domain exactly if the domain has a dot. */
  lemma TopOfSuffix(front: string, domain: string)
    requires front != "" && front[|front| - 1] == '.'
    ensures TopDomain(front + domain) == TopDomain(domain) <==> LastDot(domain) >= 0
  {
    if LastDot(domain) < 0 {
      LastDotDotless(front, domain);
      assert |TopDomain(front + domain)| > |domain|;
    } else {
      TopBehind(front, domain, front + domain, LastDot(domain));
    }
  }

  /** A matching host has the domain's top domain, up to letter case, exactly if the domain has a dot or is
      the whole host. */
  lemma SameTopIff(domain: string, host: string)
    requires TailMatch(domain, host)
    ensures EqualFold(TopDomain(domain), TopDomain(host)) <==> '.' in domain || |host| == |domain|
  {
    hide Upper, TopDomain, LastDot;
    var d, h, n := Upper(domain), Upper(host), |host| - |domain|;
    TopOfUpper(domain);
    TopOfUpper(host);
    SplitHost(domain, host);
    LastDotThere(domain);
    if n > 0 {
      TopOfSuffix(h[..n], d);
      DotOfUpper(domain);
    }
  }

  /** The matching host in upper case: something, a dot, and the domain. */
  lemma SplitHost(domain: string, host: string)
    requires TailMatch(domain, host)
    ensures var d, h, n := Upper(domain), Upper(host), |host| - |domain|;
      h == h[..n] + d && (n > 0 ==> h[n - 1] == '.')
  {
    var d, h, n := Upper(domain), Upper(host), |host| - |domain|;
    UpperSlice(host, n, |host|);
    assert domain[..|domain|] == domain && host[n..][..|domain|] == host[n..];
    assert h[n..] == d;
    if n > 0 {
      UpperDots(host, n - 1);
    }
  }

  // ---------- the hash ----------

  const SIZE_T: int := 0x1_0000_0000_0000_0000

  function Xor(x: byte, y: byte): byte {
    ((x as bv8) ^ (y as bv8)) as int
  }

  /** A number in the bits of a size_t. */
  function Wrap(x: nat): (g: nat)
    ensures g < SIZE_T && (x < SIZE_T ==> g == x)
  {
    x % SIZE_T
  }

  /** All but the last 8 bits of a size_t. */
  function UpperBits(g: nat): (upper: nat)
    requires g < SIZE_T
    ensures upper < SIZE_T / 256 && upper * 256 + g % 256 == g
  {
    g / 256
  }

  /** One round of the hash, in the 64 bits of a size_t. The character is a signed char: from 128 on it is
      widened by ones, which flip the upper bits. */
  function HashStep(h: nat, c: char): nat {
    var g, code := Wrap(h + h * 32), UpperChar(c) as int % 256;
    var upper := UpperBits(g);
    (if code < 128 then upper else SIZE_T / 256 - 1 - upper) * 256 + Xor(g % 256, code)
  }

  function HashFrom(h: nat, s: string): nat
    decreases |s|
  {
    if s == "" then h else HashFrom(HashStep(h, s[0]), s[1..])
  }

  const SEED: nat := 5381

  function Bucket(h: nat): (i: nat)
    ensures i < BUCKETS
  {
    h % BUCKETS
  }

  /** The loop of `cookie_hash_domain`. */
  method HashDomain(domain: string) returns (i: nat)
    ensures i == Bucket(HashFrom(SEED, domain))
  {
    var h: nat, at := SEED, 0;
    while at < |domain|
      invariant at <= |domain| && HashFrom(h, domain[at..]) == HashFrom(SEED, domain)
    {
      assert domain[at..][1..] == domain[at + 1..];
      hide HashStep;
      h, at := HashStep(h, domain[at]), at + 1;
    }
    i := Bucket(h);
  }

  lemma {:induction false} HashIgnoresCase(h: nat, s: string, t: string)
    requires EqualFold(s, t)
    ensures HashFrom(h, s) == HashFrom(h, t)
    decreases |s|
  {
    assert |s| == |t|;
    if s != "" {
      assert Upper(s)[0] == Upper(t)[0];
      assert HashStep(h, s[0]) == HashStep(h, t[0]);
      hide HashStep;
      UpperSlice(s, 1, |s|);
      UpperSlice(t, 1, |t|);
      assert Upper(s)[1..] == Upper(t)[1..] == Upper(s[1..]) == Upper(t[1..]);
      HashIgnoresCase(HashStep(h, s[0]), s[1..], t[1..]);
    }
  }

  /** `Curl_host_is_ipnum`, of which only this is used: letter case does not matter to it. */
  ghost predicate CaseBlind(isIp: string -> bool) {
    forall s, t :: EqualFold(s, t) ==> isIp(s) == isIp(t)
  }

  /** `cookiehash`. */
  function CookieHash(isIp: string -> bool, domain: Option<string>): (i: nat)
    ensures i < BUCKETS
  {
    if domain.None? || isIp(domain.value) then 0
    else Bucket(HashFrom(SEED, TopDomain(domain.value)))
  }

  lemma HashOfEqualFold(isIp: string -> bool, d: string, e: string)
    requires CaseBlind(isIp) && EqualFold(d, e)
    ensures CookieHash(isIp, Some(d)) == CookieHash(isIp, Some(e))
  {
    TopOfUpper(d);
    TopOfUpper(e);
    HashIgnoresCase(SEED, TopDomain(d), TopDomain(e));
  }

  /** Does a cookie with this domain go to this host, which may be an IP literal? */
  predicate DomainMatches(isIp: bool, domain: Option<string>, tailmatch: bool, host: string) {
    || domain.None?
    || (tailmatch && !isIp && TailMatch(domain.value, host))
    || ((!tailmatch || isIp) && EqualFold(host, domain.value))
  }

  /** What the hash looks at: nothing for no domain and for an IP literal, else the top domain without case. */
  function RoutingKey(isIp: string -> bool, domain: Option<string>): Option<string> {
    if domain.None? || isIp(domain.value) then None else Some(Upper(TopDomain(domain.value)))
  }

  /** Domains with the same key are in the same bucket; others only share one by a collision of hashes. */
  lemma SameKeySameBucket(isIp: string -> bool, d: Option<string>, e: Option<string>)
    requires RoutingKey(isIp, d) == RoutingKey(isIp, e)
    ensures CookieHash(isIp, d) == CookieHash(isIp, e)
  {
    hide Upper, HashFrom, TopDomain;
    if RoutingKey(isIp, d).Some? {
      HashIgnoresCase(SEED, TopDomain(d.value), TopDomain(e.value));
    }
  }

  /** The domains a look-up for the host cannot miss. */
  predicate Routable(isIp: string -> bool, domain: Option<string>, host: string) {
    if domain.None? then isIp(host)
    else EqualFold(host, domain.value) || (!isIp(domain.value) && '.' in domain.value)
  }

  /** A domain that matches the host has the host's key exactly if it is routable. */
  lemma SameKeyIff(isIp: string -> bool, domain: Option<string>, tailmatch: bool, host: string)
    requires CaseBlind(isIp) && DomainMatches(isIp(host), domain, tailmatch, host)
    ensures RoutingKey(isIp, domain) == RoutingKey(isIp, Some(host)) <==> Routable(isIp, domain, host)
  {
    if domain.Some? {
      var d := domain.value;
      if EqualFold(host, d) {
        TopOfUpper(d);
        TopOfUpper(host);
      } else {
        SameTopIff(d, host);
        if |host| == |d| {
          WholeTailIsEqual(d, host);
        }
      }
    }
  }

  lemma WholeTailIsEqual(domain: string, host: string)
    requires TailMatch(domain, host) && |host| == |domain|
    ensures EqualFold(host, domain)
  {
    assert host[0..] == host && host[..|domain|] == host && domain[..|domain|] == domain;
  }

  /** A routable domain that matches the host is in the host's bucket. */
  lemma MatchIsInBucket(isIp: string -> bool, domain: Option<string>, tailmatch: bool, host: string)
    requires CaseBlind(isIp) && DomainMatches(isIp(host), domain, tailmatch, host) && Routable(isIp, domain, host)
    ensures CookieHash(isIp, domain) == CookieHash(isIp, Some(host))
  {
    SameKeyIff(isIp, domain, tailmatch, host);
    SameKeySameBucket(isIp, domain, Some(host));
  }

  // Each of the three kinds of domain that is not routable can be missed.

  lemma AsciiStep(h: nat, c: char, code: byte, r: nat)
    requires UpperChar(c) as int == code < 128 && h * 33 < SIZE_T
    requires var g := h * 33; r == g - g % 256 + Xor(g % 256, code)
    ensures HashStep(h, c) == r
  {
    hide Xor, UpperBits, Wrap;
    assert h + h * 32 == h * 33;
  }

  lemma Xors()
    ensures Xor(165, 65) == 228 && Xor(165, 66) == 231 && Xor(100, 46) == 74 && Xor(138, 66) == 200
    ensures Xor(165, 51) == 150 && Xor(86, 46) == 120 && Xor(120, 52) == 76
  {
  }

  lemma LetterSteps()
    ensures HashStep(SEED, 'a') == 177636 && HashStep(SEED, 'b') == 177639
    ensures HashStep(177636, '.') == 5861962 && HashStep(5861962, 'b') == 193444808
  {
    hide Xor, HashStep;
    Xors();
    AsciiStep(SEED, 'a', 65, 177636);
    AsciiStep(SEED, 'b', 66, 177639);
    AsciiStep(177636, '.', 46, 5861962);
    AsciiStep(5861962, 'b', 66, 193444808);
  }

  lemma DigitSteps()
    ensures HashStep(HashStep(HashStep(SEED, '3'), '.'), '4') == 193361740
  {
    hide Xor, HashStep;
    Xors();
    AsciiStep(SEED, '3', 51, 177558);
    AsciiStep(177558, '.', 46, 5859448);
    AsciiStep(5859448, '4', 52, 193361740);
  }

  lemma HashOfOne(c: char)
    ensures HashFrom(SEED, [c]) == HashStep(SEED, c) && TopDomain("b") == "b" && TopDomain("a") == "a"
  {
    hide HashStep;
    assert [c][1..] == "";
    assert LastDot("b") == LastDot("a") == -1;
  }

  lemma HashOfThree(a: char, c: char)
    ensures HashFrom(SEED, [a, '.', c]) == HashStep(HashStep(HashStep(SEED, a), '.'), c)
  {
    hide HashStep;
    var s := [a, '.', c];
    assert s[1..] == ['.', c] && s[1..][1..] == [c] && [c][1..] == "";
    assert forall h: nat :: HashFrom(h, [c]) == HashStep(h, c);
  }

  lemma OneDot()
    ensures TopDomain("a.b") == ['a', '.', 'b']
  {
    hide LastDot;
    var s := "a.b";
    LastDotIs(s, 1);
    LastDotIs(s[..1], -1);
    assert s[0..] == s == ['a', '.', 'b'];
  }

  lemma FourDots()
    ensures TopDomain("a.1.2.3.4") == ['3', '.', '4']
  {
    hide LastDot;
    var s := "a.1.2.3.4";
    LastDotIs(s, 7);
    LastDotIs(s[..7], 5);
    assert s[6..] == ['3', '.', '4'];
  }

  /** A cookie without a domain goes to every host, but is looked for only where the hash is 0. */
  lemma NoDomainMissed(isIp: string -> bool)
    requires !isIp("a")
    ensures DomainMatches(false, None, true, "a") && CookieHash(isIp, None) == 0 && CookieHash(isIp, Some("a")) == 39
  {
    HashOfOne('a');
    LetterSteps();
    hide HashFrom, HashStep, TopDomain, LastDot;
    assert ['a'] == "a";
  }

  lemma HashesOfB(isIp: string -> bool, domain: string, host: string)
    requires domain == "b" && host == "a.b" && !isIp(domain) && !isIp(host)
    ensures CookieHash(isIp, Some(domain)) == 42 && CookieHash(isIp, Some(host)) == 32
  {
    HashOfOne('b');
    HashOfThree('a', 'b');
    OneDot();
    LetterSteps();
    hide HashFrom, HashStep, TopDomain;
    assert "b" == ['b'];
  }

  /** A domain without a dot is its own top domain, but not that of the hosts below it. */
  lemma DotlessMissed(isIp: string -> bool)
    requires !isIp("b") && !isIp("a.b")
    ensures DomainMatches(false, Some("b"), true, "a.b")
    ensures CookieHash(isIp, Some("b")) == 42 && CookieHash(isIp, Some("a.b")) == 32
  {
    hide CookieHash, TailMatch;
    HostBelow("b", "a.b");
    HashesOfB(isIp, "b", "a.b");
  }

  lemma HostBelow(domain: string, host: string)
    requires |host| == |domain| + 2 && host[2..] == domain && host[1] == '.'
    ensures TailMatch(domain, host)
  {
    assert domain[..|domain|] == domain;
    hide Upper;
  }

  /** An IP literal is in bucket 0, where a host that ends in it, but is none, does not look. */
  lemma LiteralMissed(isIp: string -> bool)
    requires isIp("1.2.3.4") && !isIp("a.1.2.3.4")
    ensures DomainMatches(false, Some("1.2.3.4"), true, "a.1.2.3.4")
    ensures CookieHash(isIp, Some("1.2.3.4")) == 0 && CookieHash(isIp, Some("a.1.2.3.4")) == 61
  {
    hide HashFrom, HashStep, TopDomain, TailMatch;
    HostBelow("1.2.3.4", "a.1.2.3.4");
    HashOfThree('3', '4');
    FourDots();
    DigitSteps();
  }
}
