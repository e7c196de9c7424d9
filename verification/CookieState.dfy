/** What the operations of the jar (cookie.c) do to the map of its cookies. */
module CookieState {
  import opened Bytes
  import opened CookieDomain
  import opened CookieJar
  import opened CookieOrder

  const MAX_SET_COOKIE_AMOUNT := 50
  const MAX_COOKIE_SEND_AMOUNT := 150

  // ---------- expiration ----------

  /** The earliest expiration of a list, or `next`. */
  function Soonest(list: seq<Cookie>, next: off_t): off_t {
    if list == [] then next
    else
      var n := |list| - 1;
      Sooner(list[n], Soonest(list[..n], next))
  }

  function Sooner(c: Cookie, next: off_t): off_t {
    if c.expires != 0 && c.expires < next then c.expires else next
  }

  /** The earliest expiration in the first `n` lists. */
  function SoonestOf(lists: Lists, n: nat): off_t
    requires n <= |lists|
  {
    if n == 0 then OFF_T_MAX else Soonest(lists[n - 1], SoonestOf(lists, n - 1))
  }

  lemma {:induction false} SoonestBounds(list: seq<Cookie>, next: off_t)
    ensures Soonest(list, next) <= next
    ensures forall c :: c in list && c.expires != 0 ==> Soonest(list, next) <= c.expires
    ensures Soonest(list, next) == next || exists c :: c in list && c.expires == Soonest(list, next) != 0
    decreases |list|
  {
    if list != [] {
      var n := |list| - 1;
      SoonestBounds(list[..n], next);
      assert list == list[..n] + [list[n]];
      assert list[n] in list;
    }
  }

  lemma {:induction false} SoonestOfBounds(lists: Lists, n: nat)
    requires n <= |lists|
    ensures forall i, c :: 0 <= i < n && c in lists[i] && c.expires != 0 ==> SoonestOf(lists, n) <= c.expires
    ensures
      || SoonestOf(lists, n) == OFF_T_MAX
      || exists i, c :: 0 <= i < n && c in lists[i] && c.expires == SoonestOf(lists, n)
  {
    if n > 0 {
      SoonestOfBounds(lists, n - 1);
      SoonestBounds(lists[n - 1], SoonestOf(lists, n - 1));
      hide Soonest;
      assert SoonestOf(lists, n) <= SoonestOf(lists, n - 1);
    }
  }

  lemma {:induction false} SoonestFrame(lists: Lists, others: Lists, n: nat)
    requires n <= |lists| && n <= |others| && forall i :: 0 <= i < n ==> lists[i] == others[i]
    ensures SoonestOf(lists, n) == SoonestOf(others, n)
  {
    if n > 0 {
      SoonestFrame(lists, others, n - 1);
    }
  }

  lemma {:induction false} FilterAll(list: seq<Cookie>, r: Rule)
    requires forall c :: c in list ==> Keeps(r, c)
    ensures Filter(list, r) == list
    decreases |list|
  {
    hide Keeps;
    if list != [] {
      var n := |list| - 1;
      FilterAll(list[..n], r);
      assert list == list[..n] + [list[n]];
    }
  }

  /** A list that is being filtered in place: the first `j` cookies of `whole` are done, which left `n`, and
      the earliest expiration of those and `start` is `next`. */
  ghost predicate Scanning(whole: seq<Cookie>, r: Rule, j: nat, n: nat, list: seq<Cookie>, start: off_t, next: off_t) {
    && j <= |whole| && n == |Filter(whole[..j], r)|
    && list == Filter(whole[..j], r) + whole[j..]
    && next == Soonest(Filter(whole[..j], r), start)
  }

  /** Two jars' lists are the same but for one. */
  ghost predicate SameBut(lists: Lists, others: Lists, i: nat) {
    |lists| == |others| && forall k :: 0 <= k < |lists| && k != i ==> lists[k] == others[k]
  }

  lemma SameButItself(a: Lists, i: nat)
    ensures SameBut(a, a, i)
  {
  }

  lemma SameButAgain(a: Lists, b: Lists, c: Lists, i: nat)
    requires SameBut(a, b, i) && SameBut(b, c, i)
    ensures SameBut(a, c, i)
  {
  }

  lemma ScanStart(whole: seq<Cookie>, r: Rule, start: off_t)
    ensures Scanning(whole, r, 0, 0, whole, start, start)
  {
    assert whole[..0] == [];
  }

  lemma ScanNext(whole: seq<Cookie>, r: Rule, j: nat, n: nat, list: seq<Cookie>, start: off_t, next: off_t)
    requires Scanning(whole, r, j, n, list, start, next) && n < |list|
    ensures j < |whole| && list[n] == whole[j]
    ensures if Keeps(r, list[n]) then Scanning(whole, r, j + 1, n + 1, list, start, Sooner(list[n], next))
      else Scanning(whole, r, j + 1, n, Without(list, n), start, next)
  {
    hide Filter, Keeps, Soonest;
    var front, co, rest := Filter(whole[..j], r), list[n], whole[j + 1..];
    assert j < |whole| && whole[j..] == [co] + rest;
    FilterStep(whole, r, j);
    if Keeps(r, co) {
      assert list == front + [co] + rest;
      SoonestStep(front, co, start);
    } else {
      assert Without(list, n) == front + rest;
      assert front + [] == front;
    }
  }

  lemma SoonestStep(list: seq<Cookie>, c: Cookie, start: off_t)
    ensures Soonest(list + [c], start) == Sooner(c, Soonest(list, start)) && |list + [c]| == |list| + 1
  {
    assert (list + [c])[..|list|] == list;
  }

  lemma ScanEnd(whole: seq<Cookie>, r: Rule, j: nat, n: nat, list: seq<Cookie>, start: off_t, next: off_t)
    requires Scanning(whole, r, j, n, list, start, next) && n >= |list|
    ensures list == Filter(whole, r) && next == Soonest(list, start)
  {
    assert j == |whole| && whole[..j] == whole;
  }

  /** Lists filtered one by one stand for the filtered map. */
  lemma FilteredIsKept(isIp: string -> bool, lists: Lists, m: map<Key, Cookie>, after: Lists, m': map<Key, Cookie>,
                      r: Rule)
    requires Holds(isIp, lists, m) && Holds(isIp, after, m')
    requires forall i :: 0 <= i < BUCKETS ==> after[i] == Filter(lists[i], r)
    ensures m' == Kept(m, r)
  {
    hide KeyOf, Home, Keeps, Filter;
    forall k
      ensures k in m' <==> k in m && Keeps(r, m[k])
      ensures k in m' ==> k in m && m'[k] == m[k]
    {
      var i := Home(isIp, k);
      HomeIsBucket(isIp, k);
      if k in m' {
        FilterMembers(lists[i], r, m'[k]);
        var at :| 0 <= at < |lists[i]| && lists[i][at] == m'[k];
      }
      if k in m && Keeps(r, m[k]) {
        FilterMembers(lists[i], r, m[k]);
        var at :| 0 <= at < |after[i]| && after[i][at] == m[k];
      }
    }
  }

  /** With nothing to expire before `next`, every cookie is unexpired at an earlier time. */
  lemma NothingExpired(isIp: string -> bool, lists: Lists, m: map<Key, Cookie>, next: int, now: int)
    requires Holds(isIp, lists, m) && NotBefore(m, next) && now < next
    ensures forall i :: 0 <= i < BUCKETS ==> lists[i] == Filter(lists[i], Unexpired(now))
    ensures m == Kept(m, Unexpired(now))
  {
    hide KeyOf, Home;
    forall i | 0 <= i < BUCKETS
      ensures lists[i] == Filter(lists[i], Unexpired(now))
    {
      forall k | 0 <= k < |lists[i]|
        ensures Keeps(Unexpired(now), lists[i][k])
      {
        var key := KeyOf(lists[i][k]);
        assert key in m && m[key] == lists[i][k];
      }
      FilterAll(lists[i], Unexpired(now));
    }
    FilteredIsKept(isIp, lists, m, lists, m, Unexpired(now));
  }

  /** The earliest expiration of all lists bounds the map. */
  lemma SoonestIsBound(isIp: string -> bool, lists: Lists, m: map<Key, Cookie>)
    requires Holds(isIp, lists, m)
    ensures NotBefore(m, SoonestOf(lists, BUCKETS))
  {
    hide KeyOf, SoonestOf;
    SoonestOfBounds(lists, BUCKETS);
    forall a | a in m && m[a].expires != 0
      ensures SoonestOf(lists, BUCKETS) <= m[a].expires
    {
      HomeIsBucket(isIp, a);
      assert m[a] in lists[Home(isIp, a)];
      hide Home;
    }
  }

  // ---------- what the operations do to the map ----------

  datatype State = State(contents: map<Key, Cookie>, lastct: int, running: bool, newsession: bool)

  /** The part of a secure cookie's path that no insecure cookie of the name may have: up to the second '/'. */
  function GuardedLength(spath: string): (n: nat)
    ensures n <= |spath|
  {
    if spath == "" then 0 else 1 + |UpTo(spath[1..], '/')|
  }

  /** Would `co` overlay an existing secure cookie? */
  predicate Overlays(was: Cookie, co: Cookie, secure: bool) {
    && EqualFold(was.name, co.name)
    && SameDomain(was, co)
    && was.spath.Some? && co.spath.Some?
    && was.secure && !co.secure && !secure
    && EqualFoldUpTo(was.spath.value, co.spath.value, GuardedLength(was.spath.value))
  }

  ghost predicate Overlaid(m: map<Key, Cookie>, co: Cookie, secure: bool) {
    exists k :: k in m && Overlays(m[k], co, secure)
  }

  /** A cookie set by a server is not replaced by one from a file. */
  predicate LiveWins(was: Cookie, co: Cookie) {
    was.livecookie && !co.livecookie
  }

  ghost predicate Refused(m: map<Key, Cookie>, co: Cookie, secure: bool) {
    Overlaid(m, co, secure) || (KeyOf(co) in m && LiveWins(m[KeyOf(co)], co))
  }

  /** Cookies dropped before they reach the lists: a broken name prefix, or a session cookie from a file in a
      new session. */
  predicate Dropped(co: Cookie, running: bool, newsession: bool) {
    || (co.prefixSecure && !co.secure)
    || (co.prefixHost && !(co.secure && co.path == Some("/") && !co.tailmatch))
    || (!running && newsession && co.expires == 0)
  }

  /** The map with a new cookie, which has the creation time of the one it replaces, or the next. */
  ghost function Stocked(m: map<Key, Cookie>, co: Cookie, ct: int): map<Key, Cookie> {
    m[KeyOf(co) := co.(creationtime := if KeyOf(co) in m then m[KeyOf(co)].creationtime else ct)]
  }

  datatype Arrival = Arrival(
    parsed: Option<Cookie>,
    setcookies: nat,
    noexpire: bool,
    now: int,
    pslRejects: bool,
    secure: bool)

  /** The state after `Curl_cookie_add`, and whether the cookie is in it. */
  ghost function Added(s: State, a: Arrival): (State, bool) {
    if
      || a.setcookies >= MAX_SET_COOKIE_AMOUNT
      || a.parsed.None?
      || Dropped(a.parsed.value, s.running, s.newsession)
    then
      (s, false)
    else
      var co := a.parsed.value.(livecookie := s.running);
      var m := if a.noexpire then s.contents else Kept(s.contents, Unexpired(a.now));
      var next := s.(lastct := s.lastct + 1);
      if a.pslRejects || Refused(m, co, a.secure) then (next.(contents := m), false)
      else
        (next.(contents := Stocked(m, co, s.lastct + 1)), true)
  }

  /** A line of a cookie file: what it is parsed to, and whether it is a `Set-Cookie:` header. */
  datatype Line = Line(parsed: Option<Cookie>, header: bool)

  function FromFile(l: Line, setcookies: nat): Arrival {
    Arrival(l.parsed, setcookies, true, 0, false, true)
  }

  /** The counter of the cookie limit after some lines: it counts the headers that were parsed. */
  function Counted(lines: seq<Line>, setcookies: nat): (count: nat) {
    if lines == [] then setcookies
    else
      var n := |lines| - 1;
      var count := Counted(lines[..n], setcookies);
      if count < MAX_SET_COOKIE_AMOUNT && lines[n].header && lines[n].parsed.Some? then count + 1 else count
  }

  ghost function LinesAdded(s: State, lines: seq<Line>, setcookies: nat): State {
    if lines == [] then s
    else
      var n := |lines| - 1;
      Added(LinesAdded(s, lines[..n], setcookies), FromFile(lines[n], Counted(lines[..n], setcookies))).0
  }

  /** The state after `Curl_cookie_init` on a jar, with the lines of a file, or none that can be read. */
  ghost function Loaded(s: State, file: Option<seq<Line>>, newsession: bool, setcookies: nat, now: int): State {
    var init := s.(running := false, newsession := newsession);
    match file
    case None => init.(running := true)
    case Some(lines) =>
      var all := LinesAdded(init, lines, setcookies);
      all.(contents := Kept(all.contents, Unexpired(now)), running := true)
  }

  // ---------- what no insecure cookie can do ----------

  /** Does an operation come from an insecure origin and carry no secure cookie, or only look up or expire, at a
      time when `c` is unexpired? */
  predicate Harmless(op: Op, c: Cookie) {
    match op
    case AddCookie(a) =>
      && (a.parsed.Some? ==> !a.parsed.value.secure) && !a.secure
      && (a.noexpire || Keeps(Unexpired(a.now), c))
    case GetCookies(_, _, _, now) => Keeps(Unexpired(now), c)
    case Expire(now) => Keeps(Unexpired(now), c)
    case _ => false
  }

  /** An insecure cookie replaces no unexpired secure cookie with a path, ... */
  lemma SecureStays(isIp: string -> bool, s: State, op: Op, k: Key)
    requires k in s.contents && KeyOf(s.contents[k]) == k && s.contents[k].secure && s.contents[k].spath.Some?
    requires Harmless(op, s.contents[k])
    ensures k in After(isIp, s, op).contents && After(isIp, s, op).contents[k] == s.contents[k]
  {
    hide BucketUsed;
    if op.AddCookie? && op.a.parsed.Some? {
      var co := op.a.parsed.value.(livecookie := s.running);
      if KeyOf(co) == k {
        SamePathIsGuarded(s.contents[k].spath.value, co.spath.value);
        assert Overlays(s.contents[k], co, op.a.secure);
        var m := if op.a.noexpire then s.contents else Kept(s.contents, Unexpired(op.a.now));
        assert k in m && m[k] == s.contents[k];
      }
    }
  }

  lemma SamePathIsGuarded(a: string, b: string)
    requires EqualFold(a, b)
    ensures EqualFoldUpTo(a, b, GuardedLength(a))
  {
    var n := GuardedLength(a);
    UpperSlice(a, 0, n);
    UpperSlice(b, 0, n);
  }

  /** ... nor do any number of them, with look-ups and expiries in between. */
  lemma {:induction false} SecureSurvives(isIp: string -> bool, s: State, ops: seq<Op>, k: Key)
    requires k in s.contents && KeyOf(s.contents[k]) == k && s.contents[k].secure && s.contents[k].spath.Some?
    requires forall n :: 0 <= n < |ops| ==> Harmless(ops[n], s.contents[k])
    ensures k in AfterRun(isIp, s, ops).contents && AfterRun(isIp, s, ops).contents[k] == s.contents[k]
    decreases |ops|
  {
    hide After, Harmless, KeyOf;
    if ops != [] {
      var n := |ops| - 1;
      SecureSurvives(isIp, s, ops[..n], k);
      SecureStays(isIp, AfterRun(isIp, s, ops[..n]), ops[n], k);
    }
  }

  /** The first 150 cookies of a list that a rule keeps. */
  function Capped(list: seq<Cookie>, r: Rule): seq<Cookie> {
    var all := Filter(list, r);
    if |all| <= MAX_COOKIE_SEND_AMOUNT then all else all[..MAX_COOKIE_SEND_AMOUNT]
  }

  /** What `Curl_cookie_getlist` may hand out for a request: cookies of the jar that go to it, in sending
      order, and all of them if they are fewer than 150 and a look-up cannot miss any. */
  ghost predicate Sendable(m: map<Key, Cookie>, isIp: string -> bool, host: string, path: string, secure: bool,
                           list: seq<Cookie>)
  {
    && Sorted(list) && DistinctTimes(list) && |list| <= MAX_COOKIE_SEND_AMOUNT
    && (forall i :: 0 <= i < |list| ==> var c := list[i];
      KeyOf(c) in m && m[KeyOf(c)] == c && Keeps(SentTo(isIp(host), host, path, secure), c))
    && (|list| < MAX_COOKIE_SEND_AMOUNT ==> forall k ::
      k in m && Keeps(SentTo(isIp(host), host, path, secure), m[k]) && Routable(isIp, m[k].domain, host) ==>
        m[k] in list)
  }

  /** Does any cookie share the host's bucket? */
  ghost predicate BucketUsed(m: map<Key, Cookie>, isIp: string -> bool, host: string) {
    exists k :: k in m && Home(isIp, k) == CookieHash(isIp, Some(host))
  }

  lemma {:induction false} FilterTimes(list: seq<Cookie>, r: Rule)
    requires DistinctTimes(list)
    ensures DistinctTimes(Filter(list, r))
    decreases |list|
  {
    hide Keeps;
    if list != [] {
      var n := |list| - 1;
      FilterTimes(list[..n], r);
      forall i | 0 <= i < |Filter(list[..n], r)|
        ensures Filter(list[..n], r)[i].creationtime != list[n].creationtime
      {
        FilterMembers(list[..n], r, Filter(list[..n], r)[i]);
      }
    }
  }

  lemma BucketTimes(isIp: string -> bool, lists: Lists, m: map<Key, Cookie>, lastct: int, i: nat)
    requires Holds(isIp, lists, m) && Dated(m, lastct) && i < BUCKETS
    ensures DistinctTimes(lists[i])
  {
    hide KeyOf, Home;
    forall k, l | 0 <= k < l < |lists[i]|
      ensures lists[i][k].creationtime != lists[i][l].creationtime
    {
      assert KeyOf(lists[i][k]) != KeyOf(lists[i][l]);
    }
  }

  lemma PickedAreSendable(isIp: string -> bool, lists: Lists, m: map<Key, Cookie>, host: string, path: string,
                          secure: bool, picked: seq<Cookie>)
    requires Holds(isIp, lists, m) && CaseBlind(isIp)
    requires picked == Capped(lists[CookieHash(isIp, Some(host))], SentTo(isIp(host), host, path, secure))
    ensures forall c ::
      c in picked ==> KeyOf(c) in m && m[KeyOf(c)] == c && Keeps(SentTo(isIp(host), host, path, secure), c)
    ensures |picked| < MAX_COOKIE_SEND_AMOUNT ==> forall k ::
      k in m && Keeps(SentTo(isIp(host), host, path, secure), m[k]) && Routable(isIp, m[k].domain, host) ==>
        m[k] in picked
  {
    var r, i := SentTo(isIp(host), host, path, secure), CookieHash(isIp, Some(host));
    var list := lists[i];
    hide KeyOf, Keeps, Routable, Home, CookieHash, Filter;
    forall c | c in picked
      ensures KeyOf(c) in m && m[KeyOf(c)] == c && Keeps(r, c)
    {
      assert c in Filter(list, r);
      FilterMembers(list, r, c);
      var at :| 0 <= at < |list| && list[at] == c;
    }
    forall k | k in m && Keeps(r, m[k]) && Routable(isIp, m[k].domain, host)
      ensures m[k] in Filter(list, r)
    {
      MatchIsHere(isIp, m[k], host, path, secure);
      FilterMembers(list, r, m[k]);
    }
  }

  lemma SortedIsSendable(m: map<Key, Cookie>, isIp: string -> bool, host: string, path: string, secure: bool,
                         picked: seq<Cookie>, list: seq<Cookie>)
    requires DistinctTimes(picked) && |picked| <= MAX_COOKIE_SEND_AMOUNT && list == Sort(picked)
    requires forall c ::
      c in picked ==> KeyOf(c) in m && m[KeyOf(c)] == c && Keeps(SentTo(isIp(host), host, path, secure), c)
    requires |picked| < MAX_COOKIE_SEND_AMOUNT ==> forall k ::
      k in m && Keeps(SentTo(isIp(host), host, path, secure), m[k]) && Routable(isIp, m[k].domain, host) ==>
        m[k] in picked
    ensures Sendable(m, isIp, host, path, secure, list)
  {
    hide KeyOf, Keeps, Routable, Sort, Sorted, DistinctTimes;
    SortSorts(picked);
    SortTimes(picked);
    SortMembers(picked);
    assert forall j :: 0 <= j < |list| ==> list[j] in picked;
  }

  /** The sorted first matches of the host's bucket are what the jar may send. */
  lemma BucketIsSendable(isIp: string -> bool, lists: Lists, m: map<Key, Cookie>, lastct: int,
                         host: string, path: string, secure: bool)
    requires CaseBlind(isIp) && Holds(isIp, lists, m) && Dated(m, lastct)
    ensures Sendable(m, isIp, host, path, secure,
                     Sort(Capped(lists[CookieHash(isIp, Some(host))], SentTo(isIp(host), host, path, secure))))
  {
    var r, i := SentTo(isIp(host), host, path, secure), CookieHash(isIp, Some(host));
    assert i < |lists|;
    hide KeyOf, Keeps, Routable, Sort, Home, CookieHash, Filter, Holds, Sendable, Dated, CaseBlind;
    var picked := Capped(lists[i], r);
    BucketTimes(isIp, lists, m, lastct, i);
    FilterTimes(lists[i], r);
    PickedAreSendable(isIp, lists, m, host, path, secure, picked);
    SortedIsSendable(m, isIp, host, path, secure, picked, Sort(picked));
  }

  lemma MatchIsHere(isIp: string -> bool, c: Cookie, host: string, path: string, secure: bool)
    requires CaseBlind(isIp) && Keeps(SentTo(isIp(host), host, path, secure), c) && Routable(isIp, c.domain, host)
    ensures Home(isIp, KeyOf(c)) == CookieHash(isIp, Some(host))
  {
    HomeOfKey(isIp, c);
    MatchIsInBucket(isIp, c.domain, c.tailmatch, host);
  }

  lemma {:induction false} SortTimes(list: seq<Cookie>)
    requires DistinctTimes(list)
    ensures DistinctTimes(Sort(list))
    decreases |list|
  {
    if list != [] {
      SortTimes(list[1..]);
      SortMembers(list[1..]);
      InsertTimes(list[0], Sort(list[1..]));
    }
  }

  lemma {:induction false} InsertTimes(c: Cookie, list: seq<Cookie>)
    requires DistinctTimes(list) && forall d :: d in list ==> d.creationtime != c.creationtime
    ensures DistinctTimes(Insert(c, list))
    decreases |list|
  {
    hide Before;
    if list != [] && !Before(c, list[0]) {
      InsertTimes(c, list[1..]);
      var rest := Insert(c, list[1..]);
      InsertMembers(c, list[1..]);
      forall j | 0 <= j < |rest|
        ensures rest[j].creationtime != list[0].creationtime
      {
        assert rest[j] in rest;
      }
    }
  }

  // ---------- looking for a cookie to replace ----------

  datatype Verdict = CookieOk | BadSecure | LiveOne

  /** What the search of `replace_existing` in a list has found: a reason to refuse the cookie, or the one
      cookie to replace, or neither. */
  ghost predicate Searched(list: seq<Cookie>, co: Cookie, secure: bool, rc: Verdict, at: int) {
    match rc
    case BadSecure => exists c :: c in list && Overlays(c, co, secure)
    case LiveOne => exists c :: c in list && Replaces(c, co) && LiveWins(c, co)
    case CookieOk =>
      && (forall c :: c in list ==> !Overlays(c, co, secure))
      && -1 <= at < |list|
      && (if at < 0 then forall c :: c in list ==> !Replaces(c, co)
          else Replaces(list[at], co) && !LiveWins(list[at], co) && forall k :: 0 <= k < at ==> !Replaces(list[k], co))
  }

  /** A search of the one bucket decides for the whole map. */
  lemma SearchedIsRefused(isIp: string -> bool, lists: Lists, m: map<Key, Cookie>, list: seq<Cookie>,
                          co: Cookie, secure: bool, rc: Verdict, at: int)
    requires CaseBlind(isIp) && Holds(isIp, lists, m)
    requires list == lists[CookieHash(isIp, co.domain)] && Searched(list, co, secure, rc, at)
    ensures rc != CookieOk <==> Refused(m, co, secure)
    ensures rc == CookieOk ==>
      if at < 0 then KeyOf(co) !in m
      else KeyOf(co) in m && KeyOf(list[at]) == KeyOf(co) && m[KeyOf(co)] == list[at]
  {
    var home := CookieHash(isIp, co.domain);
    HomeOfKey(isIp, co);
    forall c | c in list
      ensures KeyOf(c) in m && m[KeyOf(c)] == c && (Replaces(c, co) <==> KeyOf(c) == KeyOf(co))
    {
      var k :| 0 <= k < |lists[home]| && lists[home][k] == c;
      ReplacesIffKeys(c, co);
    }
    forall k | k in m && Overlays(m[k], co, secure)
      ensures m[k] in list
    {
      SameDomainSameHome(isIp, m[k], co);
    }
    hide KeyOf, Replaces, LiveWins, Overlays, CookieHash, Shelved, Unique;
    if KeyOf(co) in m {
      assert m[KeyOf(co)] in list;
    }
  }

  lemma SameDomainSameHome(isIp: string -> bool, c: Cookie, co: Cookie)
    requires CaseBlind(isIp) && SameDomain(c, co)
    ensures Home(isIp, KeyOf(c)) == CookieHash(isIp, co.domain)
  {
    HomeOfKey(isIp, c);
    if co.domain.Some? {
      HashOfEqualFold(isIp, c.domain.value, co.domain.value);
    }
  }

  // ---------- creation times ----------

  /** Neither the key nor the verdict on a cookie depends on its creation time. */
  lemma TimeDoesNotMatter(m: map<Key, Cookie>, co: Cookie, ct: int, secure: bool)
    ensures KeyOf(co.(creationtime := ct)) == KeyOf(co)
    ensures Refused(m, co.(creationtime := ct), secure) == Refused(m, co, secure)
  {
    assert forall k :: k in m ==> (Overlays(m[k], co.(creationtime := ct), secure) <==> Overlays(m[k], co, secure));
  }

  /** What adding a cookie that is not dropped comes to, with the creation time set before the cookie is
      compared with others. */
  lemma EnteredIs(s: State, a: Arrival, parsed: Cookie)
    requires a.setcookies < MAX_SET_COOKIE_AMOUNT && a.parsed == Some(parsed)
    requires !Dropped(parsed, s.running, s.newsession)
    ensures var ct := s.lastct + 1;
      var m := if a.noexpire then s.contents else Kept(s.contents, Unexpired(a.now));
      var co := parsed.(livecookie := s.running, creationtime := ct);
      var next := s.(lastct := ct, contents := m);
      Added(s, a) ==
        if a.pslRejects || Refused(m, co, a.secure) then (next, false)
        else (next.(contents := Stocked(m, co, ct)), true)
  {
    hide KeyOf, Refused, Kept, Dropped;
    var m := if a.noexpire then s.contents else Kept(s.contents, Unexpired(a.now));
    TimeDoesNotMatter(m, parsed.(livecookie := s.running), s.lastct + 1, a.secure);
  }

  lemma KeptDated(m: map<Key, Cookie>, lastct: int, r: Rule)
    requires Dated(m, lastct)
    ensures Dated(Kept(m, r), lastct) && Dated(m, lastct + 1)
  {
  }

  lemma DatedLess(m: map<Key, Cookie>, lastct: int, key: Key)
    requires Dated(m, lastct)
    ensures Dated(m - {key}, lastct)
  {
  }

  /** A cookie that takes the place, and the creation time, of another. */
  lemma DatedReplace(m: map<Key, Cookie>, lastct: int, key: Key, c: Cookie)
    requires Dated(m, lastct) && key in m && c.creationtime == m[key].creationtime
    ensures Dated((m - {key})[key := c], lastct) && Dated(m - {key}, lastct)
  {
  }

  /** A new cookie with the next creation time. */
  lemma DatedNext(m: map<Key, Cookie>, lastct: int, key: Key, c: Cookie)
    requires Dated(m, lastct) && key !in m && c.creationtime == lastct + 1
    ensures Dated(m[key := c], lastct + 1)
  {
  }

  /** What storing a cookie whose replaced predecessor, if any, is already out does to the map. */
  lemma StoreOne(m: map<Key, Cookie>, less: map<Key, Cookie>, lastct: int, next: off_t, co: Cookie, newer: Cookie)
    requires less == m - {KeyOf(co)} && Dated(m, lastct - 1) && co.creationtime == lastct && NotBefore(m, next)
    requires newer == if KeyOf(co) in m then co.(creationtime := m[KeyOf(co)].creationtime) else co
    ensures KeyOf(newer) !in less
    ensures var more := less[KeyOf(newer) := newer];
      more == Stocked(m, co, lastct) && Dated(more, lastct) && NotBefore(more, Sooner(newer, next))
  {
    hide KeyOf;
    TimeDoesNotMatter(m, co, newer.creationtime, false);
    KeptDated(m, lastct - 1, Lasting);
    var key := KeyOf(co);
    assert less[key := newer] == m[key := newer];
    if key in m {
      DatedReplace(m, lastct, key, newer);
    } else {
      assert less == m;
      DatedNext(m, lastct - 1, key, newer);
    }
  }

  lemma {:induction false} FilterPrefix(list: seq<Cookie>, r: Rule, n: nat)
    requires n <= |list|
    ensures Filter(list[..n], r) <= Filter(list, r)
    decreases |list|
  {
    hide Keeps;
    if n == |list| {
      assert list[..n] == list;
    } else {
      FilterPrefix(list[..|list| - 1], r, n);
      assert list[..|list| - 1][..n] == list[..n];
    }
  }

  lemma CappedAt(list: seq<Cookie>, r: Rule, n: nat)
    requires n <= |list|
    requires
      if n == |list| then |Filter(list[..n], r)| <= MAX_COOKIE_SEND_AMOUNT
      else |Filter(list[..n], r)| == MAX_COOKIE_SEND_AMOUNT
    ensures Filter(list[..n], r) == Capped(list, r)
  {
    FilterPrefix(list, r, n);
    hide Filter;
    assert list[..|list|] == list;
  }

  /** A bucket is empty exactly if no cookie of the map belongs there. */
  lemma EmptyBucketIff(isIp: string -> bool, lists: Lists, m: map<Key, Cookie>, host: string)
    requires Holds(isIp, lists, m)
    ensures lists[CookieHash(isIp, Some(host))] == [] <==> !BucketUsed(m, isIp, host)
  {
    hide KeyOf, Home, CookieHash;
    var i := CookieHash(isIp, Some(host));
    if lists[i] != [] {
      var key := KeyOf(lists[i][0]);
      assert key in m && Home(isIp, key) == i;
    }
  }

  // ---------- whole runs ----------

  datatype Op =
    | AddCookie(a: Arrival)
    | GetCookies(host: string, path: string, secure: bool, now: int)
    | Expire(now: int)
    | Load(file: Option<seq<Line>>, newsession: bool, setcookies: nat, now: int)
    | ClearSessionCookies
    | ClearAllCookies

  /** The state after one operation. */
  ghost function After(isIp: string -> bool, s: State, op: Op): State {
    match op
    case AddCookie(a) => Added(s, a).0
    case GetCookies(host, path, secure, now) =>
      if BucketUsed(s.contents, isIp, host) then s.(contents := Kept(s.contents, Unexpired(now))) else s
    case Expire(now) => s.(contents := Kept(s.contents, Unexpired(now)))
    case Load(file, newsession, setcookies, now) => Loaded(s, file, newsession, setcookies, now)
    case ClearSessionCookies => s.(contents := Kept(s.contents, Lasting))
    case ClearAllCookies => s.(contents := map[])
  }

  ghost function AfterRun(isIp: string -> bool, s: State, ops: seq<Op>): State {
    if ops == [] then s else After(isIp, AfterRun(isIp, s, ops[..|ops| - 1]), ops[|ops| - 1])
  }

  /** May an operation answer this list? */
  ghost predicate MayAnswer(isIp: string -> bool, s: State, op: Op, list: seq<Cookie>) {
    match op
    case GetCookies(host, path, secure, now) =>
      if BucketUsed(s.contents, isIp, host) then Sendable(After(isIp, s, op).contents, isIp, host, path, secure, list)
      else list == []
    case _ => list == []
  }

  /** A look-up hands out no expired cookie. */
  lemma NothingExpiredIsSent(isIp: string -> bool, s: State, host: string, path: string, secure: bool, now: int,
                             list: seq<Cookie>)
    requires MayAnswer(isIp, s, GetCookies(host, path, secure, now), list)
    ensures forall c :: c in list ==> c.expires == 0 || c.expires >= now
  {
    hide KeyOf, Routable, Sorted, DistinctTimes;
    forall c | c in list
      ensures c.expires == 0 || c.expires >= now
    {
      var i :| 0 <= i < |list| && list[i] == c;
      var m := Kept(s.contents, Unexpired(now));
      assert KeyOf(c) in m && m[KeyOf(c)] == c;
    }
  }
}
