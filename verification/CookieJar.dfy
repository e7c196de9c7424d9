/** Cookies and the bucket lists that hold them (cookie.h, cookie.c), and what a jar of such lists stands
    for: a map from replacement keys to cookies. */
module CookieJar {
  import opened Bytes
  import opened CookieDomain

  // curl_off_t
  const OFF_T_MAX := 0x7FFF_FFFF_FFFF_FFFF
  type off_t = x: int | -OFF_T_MAX - 1 <= x <= OFF_T_MAX

  datatype Cookie = Cookie(
    name: string,
    value: string,
    path: Option<string>,
    spath: Option<string>,
    domain: Option<string>,
    expires: off_t,
    creationtime: int,
    tailmatch: bool,
    secure: bool,
    livecookie: bool,
    httponly: bool,
    prefixSecure: bool,
    prefixHost: bool)

  // ---------- replacement keys ----------

  /** What a newer cookie replaces an older one by; letter case and, without a domain, `tailmatch` do not
      count. */
  datatype Key = Key(name: string, domain: Option<(string, bool)>, spath: Option<string>)

  function KeyOf(c: Cookie): Key {
    Key(Upper(c.name),
        if c.domain.None? then None else Some((Upper(c.domain.value), c.tailmatch)),
        if c.spath.None? then None else Some(Upper(c.spath.value)))
  }

  /** The bucket of a key. */
  function Home(isIp: string -> bool, k: Key): (i: nat)
    ensures i < BUCKETS
  {
    CookieHash(isIp, if k.domain.None? then None else Some(k.domain.value.0))
  }

  lemma HomeOfKey(isIp: string -> bool, c: Cookie)
    requires CaseBlind(isIp)
    ensures Home(isIp, KeyOf(c)) == CookieHash(isIp, c.domain)
  {
    if c.domain.Some? {
      UpperTwice(c.domain.value);
      HashOfEqualFold(isIp, c.domain.value, Upper(c.domain.value));
    }
  }

  predicate SameDomain(was: Cookie, co: Cookie) {
    if was.domain.Some? && co.domain.Some? then EqualFold(was.domain.value, co.domain.value)
    else was.domain.None? && co.domain.None?
  }

  /** Names, domains and paths as `replace_existing` compares them. */
  predicate Replaces(was: Cookie, co: Cookie) {
    && EqualFold(was.name, co.name)
    && SameDomain(was, co)
    && (was.domain.Some? && co.domain.Some? ==> was.tailmatch == co.tailmatch)
    && !(was.spath.Some? && co.spath.Some? && !EqualFold(was.spath.value, co.spath.value))
    && was.spath.Some? == co.spath.Some?
  }

  lemma ReplacesIffKeys(was: Cookie, co: Cookie)
    ensures Replaces(was, co) <==> KeyOf(was) == KeyOf(co)
  {
  }

  // ---------- rules that select cookies ----------

  datatype Rule =
    | Unexpired(now: int)
    | Lasting
    | SentTo(isIp: bool, host: string, path: string, secure: bool)

  /** The part of a request URI that is compared. */
  function UriPath(uri: string): string {
    var p := UpTo(uri, '?');
    if p == "" || p[0] != '/' then "/" else p
  }

  function UpTo(s: string, c: char): (r: string)
    ensures |r| <= |s|
  {
    if s == "" || s[0] == c then "" else [s[0]] + UpTo(s[1..], c)
  }

  /** `pathmatch`: a path of one character matches all. */
  predicate PathMatch(cookiePath: string, uri: string) {
    var p := UriPath(uri);
    || |cookiePath| == 1
    || (cookiePath <= p && (|cookiePath| == |p| || p[|cookiePath|] == '/'))
  }

  predicate Keeps(r: Rule, c: Cookie) {
    match r
    case Unexpired(now) => c.expires == 0 || c.expires >= now
    case Lasting => c.expires != 0
    case SentTo(isIp, host, path, secure) =>
      && (c.secure ==> secure)
      && DomainMatches(isIp, c.domain, c.tailmatch, host)
      && (c.spath.None? || PathMatch(c.spath.value, path))
  }

  function Filter(list: seq<Cookie>, r: Rule): seq<Cookie> {
    if list == [] then []
    else
      var n := |list| - 1;
      Filter(list[..n], r) + if Keeps(r, list[n]) then [list[n]] else []
  }

  lemma {:induction false} FilterMembers(list: seq<Cookie>, r: Rule, c: Cookie)
    ensures c in Filter(list, r) <==> c in list && Keeps(r, c)
    decreases |list|
  {
    hide Keeps;
    if list != [] {
      var n := |list| - 1;
      FilterMembers(list[..n], r, c);
      assert list == list[..n] + [list[n]];
    }
  }

  lemma FilterStep(list: seq<Cookie>, r: Rule, j: nat)
    requires j < |list|
    ensures Filter(list[..j + 1], r) == Filter(list[..j], r) + if Keeps(r, list[j]) then [list[j]] else []
  {
    hide Keeps;
    assert list[..j + 1][..j] == list[..j];
  }

  lemma {:induction false} FilterNone(list: seq<Cookie>, r: Rule)
    requires forall c :: c in list ==> !Keeps(r, c)
    ensures Filter(list, r) == []
    decreases |list|
  {
    hide Keeps;
    if list != [] {
      FilterNone(list[..|list| - 1], r);
    }
  }

  // ---------- the lists as a map ----------

  type Lists = seq<seq<Cookie>>

  /** Every cookie is in the bucket of its key, ... */
  ghost predicate Shelved(isIp: string -> bool, lists: Lists)
    requires |lists| == BUCKETS
  {
    forall i, k :: 0 <= i < BUCKETS && 0 <= k < |lists[i]| ==> Home(isIp, KeyOf(lists[i][k])) == i
  }

  /** ... no two of a bucket have the same key, ... */
  ghost predicate Unique(lists: Lists)
    requires |lists| == BUCKETS
  {
    forall i :: 0 <= i < BUCKETS ==> DistinctKeys(lists[i])
  }

  ghost predicate DistinctKeys(list: seq<Cookie>) {
    forall k, l :: 0 <= k < l < |list| ==> KeyOf(list[k]) != KeyOf(list[l])
  }

  /** ... and together they are the cookies of the map. */
  ghost predicate Represents(isIp: string -> bool, lists: Lists, m: map<Key, Cookie>)
    requires |lists| == BUCKETS
  {
    && (forall i, k :: 0 <= i < BUCKETS && 0 <= k < |lists[i]| ==>
      KeyOf(lists[i][k]) in m && m[KeyOf(lists[i][k])] == lists[i][k])
    && (forall key :: key in m ==> KeyOf(m[key]) == key && m[key] in lists[Home(isIp, key)])
  }

  ghost predicate Holds(isIp: string -> bool, lists: Lists, m: map<Key, Cookie>) {
    |lists| == BUCKETS && Shelved(isIp, lists) && Unique(lists) && Represents(isIp, lists, m)
  }

  /** Creation times are pairwise different, and none is newer than the last one given out. */
  ghost predicate Dated(m: map<Key, Cookie>, lastct: int) {
    && (forall a, b :: a in m && b in m && a != b ==> m[a].creationtime != m[b].creationtime)
    && (forall a :: a in m ==> m[a].creationtime <= lastct)
  }

  /** No cookie expires before `next`. */
  ghost predicate NotBefore(m: map<Key, Cookie>, next: int) {
    forall a :: a in m && m[a].expires != 0 ==> next <= m[a].expires
  }

  ghost function Kept(m: map<Key, Cookie>, r: Rule): map<Key, Cookie> {
    map k | k in m && Keeps(r, m[k]) :: m[k]
  }

  function Without(list: seq<Cookie>, p: nat): seq<Cookie>
    requires p < |list|
  {
    list[..p] + list[p + 1..]
  }

  /** Taking one cookie out of its list. */
  lemma RemoveOne(isIp: string -> bool, lists: Lists, m: map<Key, Cookie>, i: nat, p: nat)
    requires Holds(isIp, lists, m) && i < BUCKETS && p < |lists[i]|
    ensures var key := KeyOf(lists[i][p]);
      && key in m && m[key] == lists[i][p]
      && Holds(isIp, lists[i := Without(lists[i], p)], m - {key})
      && |m - {key}| == |m| - 1
  {
    hide KeyOf, Home, Without, DistinctKeys;
    var key := KeyOf(lists[i][p]);
    WithoutOne(lists[i], p);
    assert (m - {key}).Keys == m.Keys - {key};
    StillThere(isIp, lists, m, i, p);
  }

  lemma WithoutOne(list: seq<Cookie>, p: nat)
    requires p < |list| && DistinctKeys(list)
    ensures var rest := Without(list, p);
      && DistinctKeys(rest) && |rest| == |list| - 1
      && forall k :: 0 <= k < |rest| ==> rest[k] in list && KeyOf(rest[k]) != KeyOf(list[p])
  {
    hide KeyOf;
    var rest := Without(list, p);
    assert forall k :: 0 <= k < |rest| ==> rest[k] == list[if k < p then k else k + 1];
  }

  lemma StillThere(isIp: string -> bool, lists: Lists, m: map<Key, Cookie>, i: nat, p: nat)
    requires Holds(isIp, lists, m) && i < BUCKETS && p < |lists[i]|
    ensures forall other :: other in m && other != KeyOf(lists[i][p]) ==>
      m[other] in lists[i := Without(lists[i], p)][Home(isIp, other)]
  {
    hide KeyOf, Home;
    forall other | other in m && other != KeyOf(lists[i][p])
      ensures m[other] in lists[i := Without(lists[i], p)][Home(isIp, other)]
    {
      var home := Home(isIp, other);
      var at :| 0 <= at < |lists[home]| && lists[home][at] == m[other];
      if home == i {
        assert at != p;
        assert Without(lists[i], p)[if at < p then at else at - 1] == m[other];
      }
    }
  }

  /** Appending a cookie with a new key to the list of its bucket. */
  lemma AppendOne(isIp: string -> bool, lists: Lists, m: map<Key, Cookie>, c: Cookie)
    requires Holds(isIp, lists, m) && KeyOf(c) !in m
    ensures var i := Home(isIp, KeyOf(c));
      Holds(isIp, lists[i := lists[i] + [c]], m[KeyOf(c) := c])
    ensures |m[KeyOf(c) := c]| == |m| + 1
  {
    hide KeyOf, Home, Holds;
    AppendKeyed(isIp, lists, m, c, KeyOf(c), Home(isIp, KeyOf(c)));
  }

  lemma AppendKeyed(isIp: string -> bool, lists: Lists, m: map<Key, Cookie>, c: Cookie, key: Key, i: nat)
    requires Holds(isIp, lists, m) && key == KeyOf(c) && key !in m && i == Home(isIp, key)
    ensures Holds(isIp, lists[i := lists[i] + [c]], m[key := c]) && |m[key := c]| == |m| + 1
  {
    hide KeyOf, Home, DistinctKeys;
    var list := lists[i] + [c];
    assert m[key := c].Keys == m.Keys + {key};
    OthersDiffer(isIp, lists, m, i, key);
    DistinctMore(lists[i], c);
    assert forall k :: 0 <= k < |list| ==> list[k] == if k < |lists[i]| then lists[i][k] else c;
    FoundAfter(isIp, lists, m, c, key);
  }

  lemma OthersDiffer(isIp: string -> bool, lists: Lists, m: map<Key, Cookie>, i: nat, key: Key)
    requires Holds(isIp, lists, m) && i < BUCKETS && key !in m
    ensures forall k :: 0 <= k < |lists[i]| ==> KeyOf(lists[i][k]) != key
  {
    hide KeyOf, Home, Shelved, DistinctKeys;
  }

  lemma DistinctMore(list: seq<Cookie>, c: Cookie)
    requires DistinctKeys(list) && forall k :: 0 <= k < |list| ==> KeyOf(list[k]) != KeyOf(c)
    ensures DistinctKeys(list + [c])
  {
    hide KeyOf;
  }

  lemma FoundAfter(isIp: string -> bool, lists: Lists, m: map<Key, Cookie>, c: Cookie, key: Key)
    requires Holds(isIp, lists, m) && key == KeyOf(c)
    ensures var i := Home(isIp, key);
      forall other :: other in m[key := c] ==> m[key := c][other] in lists[i := lists[i] + [c]][Home(isIp, other)]
  {
    hide KeyOf, Home, Shelved, Unique;
    var i := Home(isIp, key);
    var after, more := lists[i := lists[i] + [c]], m[key := c];
    forall other | other in more
      ensures more[other] in after[Home(isIp, other)]
    {
      if other == key {
        assert after[i][|lists[i]|] == c;
      } else {
        var home := Home(isIp, other);
        var at :| 0 <= at < |lists[home]| && lists[home][at] == m[other];
        assert after[home][at] == m[other];
      }
    }
  }

  // ---------- counting ----------

  function Total(lists: seq<seq<Cookie>>): nat {
    if lists == [] then 0 else |lists[0]| + Total(lists[1..])
  }

  ghost function KeySet(list: seq<Cookie>): set<Key> {
    set k | 0 <= k < |list| :: KeyOf(list[k])
  }

  lemma {:induction false} KeySetSize(list: seq<Cookie>)
    requires DistinctKeys(list)
    ensures |KeySet(list)| == |list|
    decreases |list|
  {
    hide KeyOf;
    if list != [] {
      var n := |list| - 1;
      KeySetSize(list[..n]);
      assert KeySet(list) == KeySet(list[..n]) + {KeyOf(list[n])};
    }
  }

  lemma KeySetIs(isIp: string -> bool, lists: Lists, m: map<Key, Cookie>, i: nat)
    requires Holds(isIp, lists, m) && i < BUCKETS
    ensures forall k :: k in KeySet(lists[i]) <==> k in m && Home(isIp, k) == i
  {
    hide KeyOf, Home;
    forall k
      ensures k in KeySet(lists[i]) <==> k in m && Home(isIp, k) == i
    {
      if k in m && Home(isIp, k) == i {
        var at :| 0 <= at < |lists[i]| && lists[i][at] == m[k];
      }
    }
  }

  /** The map has as many cookies as the buckets from `i` on, and those before. */
  lemma {:induction false} CountFrom(isIp: string -> bool, lists: Lists, m: map<Key, Cookie>, i: nat, keys: set<Key>)
    requires Holds(isIp, lists, m) && i <= BUCKETS
    requires forall k :: k in keys <==> k in m && Home(isIp, k) >= i
    ensures Total(lists[i..]) == |keys|
    decreases BUCKETS - i
  {
    hide KeyOf, Home;
    if i < BUCKETS {
      var here := KeySet(lists[i]);
      KeySetSize(lists[i]);
      KeySetIs(isIp, lists, m, i);
      CountFrom(isIp, lists, m, i + 1, keys - here);
      assert lists[i..][0] == lists[i] && lists[i..][1..] == lists[i + 1..];
    } else {
      forall k
        ensures k !in keys
      {
        HomeIsBucket(isIp, k);
      }
      assert keys == {};
    }
  }

  lemma HomeIsBucket(isIp: string -> bool, k: Key)
    ensures Home(isIp, k) < BUCKETS
  {
  }

  /** The size of the map is the total over all buckets. */
  lemma CountIsTotal(isIp: string -> bool, lists: Lists, m: map<Key, Cookie>)
    requires Holds(isIp, lists, m)
    ensures |m| == Total(lists)
  {
    assert lists[0..] == lists;
    CountFrom(isIp, lists, m, 0, m.Keys);
    assert |m| == |m.Keys|;
  }

  // ---------- one bucket against the whole jar ----------

  /** The cookies of all buckets that a rule keeps. */
  function WholeScan(lists: seq<seq<Cookie>>, r: Rule): seq<Cookie> {
    if lists == [] then [] else Filter(lists[0], r) + WholeScan(lists[1..], r)
  }

  lemma {:induction false} WholeScanOfOne(lists: seq<seq<Cookie>>, r: Rule, i: nat)
    requires i < |lists| && forall j :: 0 <= j < |lists| && j != i ==> Filter(lists[j], r) == []
    ensures WholeScan(lists, r) == Filter(lists[i], r)
    decreases |lists|
  {
    if i == 0 {
      WholeScanOfNone(lists[1..], r);
    } else {
      assert forall j :: 0 <= j < |lists| - 1 ==> lists[1..][j] == lists[j + 1];
      WholeScanOfOne(lists[1..], r, i - 1);
    }
  }

  lemma {:induction false} WholeScanOfNone(lists: seq<seq<Cookie>>, r: Rule)
    requires forall j :: 0 <= j < |lists| ==> Filter(lists[j], r) == []
    ensures WholeScan(lists, r) == []
    decreases |lists|
  {
    if lists != [] {
      WholeScanOfNone(lists[1..], r);
    }
  }

  /** Reading only the host's bucket finds what reading the whole jar finds, in the same order, if each cookie
      that goes to the host is routable. */
  lemma OneBucketIsEnough(isIp: string -> bool, lists: Lists, host: string, path: string, secure: bool)
    requires CaseBlind(isIp) && |lists| == BUCKETS && Shelved(isIp, lists)
    requires forall i, k ::
      0 <= i < BUCKETS && 0 <= k < |lists[i]| && Keeps(SentTo(isIp(host), host, path, secure), lists[i][k]) ==>
      Routable(isIp, lists[i][k].domain, host)
    ensures WholeScan(lists, SentTo(isIp(host), host, path, secure))
      == Filter(lists[CookieHash(isIp, Some(host))], SentTo(isIp(host), host, path, secure))
  {
    var r, here := SentTo(isIp(host), host, path, secure), CookieHash(isIp, Some(host));
    forall j | 0 <= j < BUCKETS && j != here
      ensures Filter(lists[j], r) == []
    {
      forall k | 0 <= k < |lists[j]|
        ensures !Keeps(r, lists[j][k])
      {
        var c := lists[j][k];
        HomeOfKey(isIp, c);
        if Keeps(r, c) {
          MatchIsInBucket(isIp, c.domain, c.tailmatch, host);
        }
      }
      FilterNone(lists[j], r);
    }
    WholeScanOfOne(lists, r, here);
  }
}
