/** The cookie jar (cookie.c): 63 lists of cookies and a cached next expiration. */
module CookieStore {
  import opened Bytes
  import opened CookieDomain
  import opened CookieJar
  import opened CookieOrder
  import opened CookieState

  class Jar {
    // What the host-name code says of IP literals.
    const isIp: string -> bool

    var cookielist: Lists
    var nextExpiration: off_t
    var numcookies: int
    var lastct: int
    var running: bool
    var newsession: bool

    // The cookies, by replacement key.
    ghost var contents: map<Key, Cookie>

    /** The invariant without the counter and the cached expiration. */
    ghost predicate Stored()
      reads this`contents, this`lastct, this`cookielist
    {
      CaseBlind(isIp) && Holds(isIp, cookielist, contents) && Dated(contents, lastct)
    }

    ghost predicate Sound()
      reads this`contents, this`numcookies, this`lastct, this`cookielist
    {
      Stored() && numcookies == |contents|
    }

    ghost predicate Valid()
      reads this
    {
      Sound() && NotBefore(contents, nextExpiration)
    }

    ghost function Abs(): State
      reads this
    {
      State(contents, lastct, running, newsession)
    }

    /** A new jar, as `Curl_cookie_init` makes it. */
    constructor (isIp: string -> bool)
      requires CaseBlind(isIp)
      ensures Valid() && this.isIp == isIp
      ensures Abs() == State(map[], 0, false, false) && nextExpiration == OFF_T_MAX && numcookies == 0
    {
      this.isIp := isIp;
      cookielist := seq(BUCKETS, _ => []);
      nextExpiration, numcookies, lastct := OFF_T_MAX, 0, 0;
      running, newsession := false, false;
      contents := map[];
    }

    /** The counter is the total over all buckets, and no two cookies anywhere in the jar have the same key or
        the same creation time. */
    lemma WholeJar()
      requires Valid()
      ensures numcookies == Total(cookielist)
      ensures forall i, k, j, l ::
        && 0 <= i < BUCKETS && 0 <= k < |cookielist[i]|
        && 0 <= j < BUCKETS && 0 <= l < |cookielist[j]| && (i, k) != (j, l)
        ==>
        && !Replaces(cookielist[i][k], cookielist[j][l])
        && cookielist[i][k].creationtime != cookielist[j][l].creationtime
      ensures forall i, k ::
        && 0 <= i < BUCKETS && 0 <= k < |cookielist[i]|
        ==> cookielist[i][k].creationtime <= lastct && CookieHash(isIp, cookielist[i][k].domain) == i
    {
      CountIsTotal(isIp, cookielist, contents);
      forall i, k, j, l | 0 <= i < BUCKETS && 0 <= k < |cookielist[i]| && 0 <= j < BUCKETS && 0 <= l < |cookielist[j]|
        && (i, k) != (j, l)
        ensures !Replaces(cookielist[i][k], cookielist[j][l])
        ensures cookielist[i][k].creationtime != cookielist[j][l].creationtime
      {
        TwoCookies(isIp, cookielist, contents, lastct, i, k, j, l);
      }
      forall i, k | 0 <= i < BUCKETS && 0 <= k < |cookielist[i]|
        ensures cookielist[i][k].creationtime <= lastct && CookieHash(isIp, cookielist[i][k].domain) == i
      {
        OneCookie(isIp, cookielist, contents, lastct, i, k);
      }
    }

    lemma ListsThere()
      requires Stored()
      ensures |cookielist| == BUCKETS
    {
    }

    /** Takes one cookie out of its list. */
    method Unlink(i: nat, p: nat)
      requires Stored() && i < BUCKETS && p < |cookielist[i]|
      modifies this`contents, this`cookielist
      ensures Stored() && |cookielist| == BUCKETS && cookielist == old(cookielist)[i := Without(old(cookielist[i]), p)]
      ensures |contents| == |old(contents)| - 1 && contents == old(contents) - {KeyOf(old(cookielist[i][p]))}
    {
      hide KeyOf, Holds, CaseBlind, Dated, Without;
      ListsThere();
      RemoveOne(isIp, cookielist, contents, i, p);
      DatedLess(contents, lastct, KeyOf(cookielist[i][p]));
      contents := contents - {KeyOf(cookielist[i][p])};
      cookielist := cookielist[i := Without(cookielist[i], p)];
    }

    method RemoveNode(i: nat, p: nat)
      requires Sound() && i < BUCKETS && p < |cookielist[i]|
      modifies this`numcookies, this`contents, this`cookielist
      ensures Sound() && |cookielist| == BUCKETS
      ensures cookielist[i] == Without(old(cookielist[i]), p) && SameBut(old(cookielist), cookielist, i)
    {
      hide Stored, Holds, KeyOf, Without;
      SoundHolds();
      Unlink(i, p);
      numcookies := numcookies - 1;
    }

    /** One round of the inner loop of `remove_expired`, at node `n`. */
    method ExpireNode(i: nat, n: nat, now: int, ghost whole: seq<Cookie>, ghost j: nat, ghost start: off_t)
      returns (next: nat)
      requires Sound() && i < BUCKETS == |cookielist| && n < |cookielist[i]|
      requires Scanning(whole, Unexpired(now), j, n, cookielist[i], start, nextExpiration)
      modifies this`numcookies, this`contents, this`nextExpiration, this`cookielist
      ensures Sound() && |cookielist| == BUCKETS && SameBut(old(cookielist), cookielist, i) && j < |whole|
      ensures Scanning(whole, Unexpired(now), j + 1, next, cookielist[i], start, nextExpiration)
    {
      hide Sound, KeyOf, Filter, Without, Scanning, Soonest, SameBut;
      var co := cookielist[i][n];
      SameButItself(cookielist, i);
      ScanNext(whole, Unexpired(now), j, n, cookielist[i], start, nextExpiration);
      next := n;
      if co.expires != 0 && co.expires < now {
        RemoveNode(i, n);
      } else {
        if co.expires != 0 && co.expires < nextExpiration {
          nextExpiration := co.expires;
        }
        next := n + 1;
      }
    }

    /** The inner loop of `remove_expired`. */
    method ExpireBucket(i: nat, now: int)
      requires Sound() && i < BUCKETS
      modifies this`numcookies, this`contents, this`nextExpiration, this`cookielist
      ensures Sound() && |cookielist| == BUCKETS
      ensures cookielist[i] == Filter(old(cookielist[i]), Unexpired(now)) && SameBut(old(cookielist), cookielist, i)
      ensures nextExpiration == Soonest(cookielist[i], old(nextExpiration))
    {
      hide Sound, KeyOf, Filter, Scanning, Soonest, SameBut, Holds;
      SoundHolds();
      SameButItself(cookielist, i);
      ghost var lists := cookielist;
      ghost var whole, r := cookielist[i], Unexpired(now);
      ghost var j: nat := 0;
      var n: nat := 0;
      ScanStart(whole, r, nextExpiration);
      while n < |cookielist[i]|
        invariant Sound() && |cookielist| == BUCKETS && SameBut(lists, cookielist, i)
        invariant Scanning(whole, r, j, n, cookielist[i], old(nextExpiration), nextExpiration)
        decreases |whole| - j
      {
        ghost var before := cookielist;
        n := ExpireNode(i, n, now, whole, j, old(nextExpiration));
        SameButAgain(lists, before, cookielist, i);
        j := j + 1;
      }
      ScanEnd(whole, r, j, n, cookielist[i], old(nextExpiration), nextExpiration);
    }

    /** `remove_expired`: with or without the early exit, all and only the cookies that expired before `now`
        are gone, and the others keep their order. */
    method RemoveExpired(now: int)
      requires Valid()
      modifies this`numcookies, this`contents, this`nextExpiration, this`cookielist
      ensures Valid() && contents == Kept(old(contents), Unexpired(now))
      ensures forall i :: 0 <= i < BUCKETS ==> cookielist[i] == Filter(old(cookielist[i]), Unexpired(now))
      ensures nextExpiration == if now < old(nextExpiration) != OFF_T_MAX then old(nextExpiration)
        else SoonestOf(cookielist, BUCKETS)
    {
      hide Sound, Holds, KeyOf, Filter, Soonest, NotBefore, Kept;
      SoundHolds();
      ghost var lists, m := cookielist, contents;
      if now < nextExpiration && nextExpiration != OFF_T_MAX {
        NothingExpired(isIp, cookielist, contents, nextExpiration, now);
        return;
      }
      nextExpiration := OFF_T_MAX;
      for i := 0 to BUCKETS
        invariant Sound() && |cookielist| == BUCKETS && nextExpiration == SoonestOf(cookielist, i)
        invariant forall k :: 0 <= k < i ==> cookielist[k] == Filter(lists[k], Unexpired(now))
        invariant forall k :: i <= k < BUCKETS ==> cookielist[k] == lists[k]
      {
        ghost var before := cookielist;
        ExpireBucket(i, now);
        SoonestFrame(before, cookielist, i);
      }
      SoundHolds();
      FilteredIsKept(isIp, lists, m, cookielist, contents, Unexpired(now));
      SoonestIsBound(isIp, cookielist, contents);
    }

    lemma SoundHolds()
      requires Sound()
      ensures |cookielist| == BUCKETS && Holds(isIp, cookielist, contents)
    {
      hide Shelved, Unique, Represents;
    }

    /** `Curl_cookie_clearsess`: exactly the session cookies are gone. */
    method ClearSession()
      requires Valid()
      modifies this`numcookies, this`contents, this`cookielist
      ensures Valid() && contents == Kept(old(contents), Lasting)
      ensures forall i :: 0 <= i < BUCKETS ==> cookielist[i] == Filter(old(cookielist[i]), Lasting)
    {
      ghost var lists, m := cookielist, contents;
      hide Sound, KeyOf, Filter;
      SoundHolds();
      hide Holds;
      for i := 0 to BUCKETS
        invariant Sound() && |cookielist| == BUCKETS
        invariant forall k :: 0 <= k < i ==> cookielist[k] == Filter(lists[k], Lasting)
        invariant forall k :: i <= k < BUCKETS ==> cookielist[k] == lists[k]
      {
        ClearBucket(i);
      }
      SoundHolds();
      FilteredIsKept(isIp, lists, m, cookielist, contents, Lasting);
    }

    /** One round of the inner loop of `Curl_cookie_clearsess`, at node `n`. */
    method ClearNode(i: nat, n: nat, ghost whole: seq<Cookie>, ghost j: nat, ghost least: off_t)
      returns (next: nat, ghost less: off_t)
      requires Sound() && i < BUCKETS == |cookielist| && n < |cookielist[i]|
      requires Scanning(whole, Lasting, j, n, cookielist[i], OFF_T_MAX, least)
      modifies this`numcookies, this`contents, this`cookielist
      ensures Sound() && |cookielist| == BUCKETS && SameBut(old(cookielist), cookielist, i) && j < |whole|
      ensures Scanning(whole, Lasting, j + 1, next, cookielist[i], OFF_T_MAX, less)
    {
      hide Sound, KeyOf, Filter, Without, Scanning, Soonest, SameBut;
      var curr := cookielist[i][n];
      SameButItself(cookielist, i);
      ScanNext(whole, Lasting, j, n, cookielist[i], OFF_T_MAX, least);
      next, less := n, least;
      if curr.expires == 0 {
        RemoveNode(i, n);
      } else {
        next, less := n + 1, Sooner(curr, least);
      }
    }

    method ClearBucket(i: nat)
      requires Sound() && i < BUCKETS
      modifies this`numcookies, this`contents, this`cookielist
      ensures Sound() && |cookielist| == BUCKETS
      ensures cookielist[i] == Filter(old(cookielist[i]), Lasting) && SameBut(old(cookielist), cookielist, i)
    {
      hide Sound, KeyOf, Filter, Scanning, Soonest, SameBut, Holds;
      SoundHolds();
      SameButItself(cookielist, i);
      ghost var lists := cookielist;
      ghost var whole := cookielist[i];
      ghost var j: nat := 0;
      ghost var least: off_t := OFF_T_MAX;
      var n: nat := 0;
      ScanStart(whole, Lasting, OFF_T_MAX);
      while n < |cookielist[i]|
        invariant Sound() && |cookielist| == BUCKETS && SameBut(lists, cookielist, i)
        invariant Scanning(whole, Lasting, j, n, cookielist[i], OFF_T_MAX, least)
        decreases |whole| - j
      {
        ghost var before := cookielist;
        n, least := ClearNode(i, n, whole, j, least);
        SameButAgain(lists, before, cookielist, i);
        j := j + 1;
      }
      ScanEnd(whole, Lasting, j, n, cookielist[i], OFF_T_MAX, least);
    }

    method EmptyBucket(i: nat)
      requires i < |cookielist| == BUCKETS
      modifies this`cookielist
      ensures |cookielist| == BUCKETS && cookielist[i] == [] && SameBut(old(cookielist), cookielist, i)
    {
      while cookielist[i] != []
        invariant |cookielist| == BUCKETS && SameBut(old(cookielist), cookielist, i)
        decreases |cookielist[i]|
      {
        cookielist := cookielist[i := cookielist[i][1..]];
      }
    }

    /** `Curl_cookie_clearall`; the cached expiration stays. */
    method ClearAll()
      requires Valid()
      modifies this`numcookies, this`contents, this`cookielist
      ensures Valid() && contents == map[] && numcookies == 0
    {
      for i := 0 to BUCKETS
        invariant |cookielist| == BUCKETS && forall k :: 0 <= k < i ==> cookielist[k] == []
      {
        EmptyBucket(i);
      }
      numcookies := 0;
      contents := map[];
    }

    // ---------- adding ----------

    /** The search of `replace_existing`. */
    static method Search(list: seq<Cookie>, co: Cookie, secure: bool)
      returns (rc: Verdict, replaceOld: bool, replaceN: int)
      ensures Searched(list, co, secure, rc, replaceN) && (rc == CookieOk ==> (replaceOld <==> replaceN >= 0))
    {
      hide EqualFold, EqualFoldUpTo, GuardedLength;
      replaceOld, replaceN := false, -1;
      for n := 0 to |list|
        invariant forall k :: 0 <= k < n ==> !Overlays(list[k], co, secure)
        invariant -1 <= replaceN < n && (replaceOld <==> replaceN >= 0)
        invariant replaceN < 0 ==> forall k :: 0 <= k < n ==> !Replaces(list[k], co)
        invariant replaceN >= 0 ==> Replaces(list[replaceN], co) && !LiveWins(list[replaceN], co)
        invariant forall k :: 0 <= k < replaceN ==> !Replaces(list[k], co)
      {
        var clist := list[n];
        if EqualFold(clist.name, co.name) {
          var matchingDomains := false;
          if clist.domain.Some? && co.domain.Some? {
            if EqualFold(clist.domain.value, co.domain.value) {
              matchingDomains := true;
            }
          } else if clist.domain.None? && co.domain.None? {
            matchingDomains := true;
          }
          if matchingDomains && clist.spath.Some? && co.spath.Some? && clist.secure && !co.secure && !secure {
            var cllen := GuardedLength(clist.spath.value);
            if EqualFoldUpTo(clist.spath.value, co.spath.value, cllen) {
              assert Overlays(clist, co, secure);
              return BadSecure, replaceOld, replaceN;
            }
          }
        }
        if replaceN < 0 && EqualFold(clist.name, co.name) {
          if clist.domain.Some? && co.domain.Some? {
            if EqualFold(clist.domain.value, co.domain.value) && clist.tailmatch == co.tailmatch {
              replaceOld := true;
            }
          } else if clist.domain.None? && co.domain.None? {
            replaceOld := true;
          }
          if replaceOld {
            if clist.spath.Some? && co.spath.Some? && !EqualFold(clist.spath.value, co.spath.value) {
              replaceOld := false;
            } else if clist.spath.None? != co.spath.None? {
              replaceOld := false;
            }
          }
          assert replaceOld <==> Replaces(clist, co);
          if replaceOld && !co.livecookie && clist.livecookie {
            return LiveOne, replaceOld, replaceN;
          }
          if replaceOld {
            replaceN := n;
          }
        }
      }
      return CookieOk, replaceOld, replaceN;
    }

    /** `replace_existing`: refuses the cookie, or takes the one it replaced out and keeps its creation time. */
    method ReplaceExisting(co: Cookie, secure: bool) returns (rc: Verdict, replaced: bool, newer: Cookie)
      requires Stored()
      modifies this`contents, this`cookielist
      ensures Stored() && (rc != CookieOk <==> Refused(old(contents), co, secure))
      ensures rc != CookieOk ==> contents == old(contents)
      ensures rc == CookieOk ==>
        && (replaced <==> KeyOf(co) in old(contents)) && contents == old(contents) - {KeyOf(co)}
        && |contents| == |old(contents)| - (if replaced then 1 else 0)
        && newer == if replaced then co.(creationtime := old(contents)[KeyOf(co)].creationtime) else co
    {
      hide KeyOf, Refused, Searched, Without, Overlaid, Dated;
      hide Shelved, Unique, Represents, CaseBlind;
      var myhash := CookieHash(isIp, co.domain);
      ghost var lists, list := cookielist, cookielist[myhash];
      newer := co;
      var at: int;
      rc, replaced, at := Search(cookielist[myhash], co, secure);
      SearchedIsRefused(isIp, cookielist, contents, list, co, secure, rc, at);
      if rc != CookieOk {
        return;
      }
      SearchedBounds(list, co, secure, at);
      if at >= 0 {
        newer := co.(creationtime := cookielist[myhash][at].creationtime);
        Unlink(myhash, at);
      } else {
        assert contents - {KeyOf(co)} == contents;
      }
    }

    static lemma SearchedBounds(list: seq<Cookie>, co: Cookie, secure: bool, at: int)
      requires Searched(list, co, secure, CookieOk, at)
      ensures -1 <= at < |list|
    {
    }

    /** Appends a cookie to the list of its bucket. */
    method Link(c: Cookie)
      requires Stored() && KeyOf(c) !in contents && Dated(contents[KeyOf(c) := c], lastct)
      modifies this`contents, this`cookielist
      ensures Stored() && contents == old(contents)[KeyOf(c) := c] && |contents| == |old(contents)| + 1
      ensures var i := CookieHash(isIp, c.domain); cookielist == old(cookielist)[i := old(cookielist[i]) + [c]]
    {
      AppendOne(isIp, cookielist, contents, c);
      HomeOfKey(isIp, c);
      hide KeyOf, Holds, CaseBlind, Dated;
      var myhash := CookieHash(isIp, c.domain);
      contents := contents[KeyOf(c) := c];
      cookielist := cookielist[myhash := cookielist[myhash] + [c]];
    }

    /** The last steps of `Curl_cookie_add`: an accepted cookie replaces the one with its key, whose creation
        time it takes over, or comes new into the jar. */
    method Store(co: Cookie, secure: bool) returns (added: bool)
      requires Valid() && Dated(contents, lastct - 1) && co.creationtime == lastct
      modifies this`numcookies, this`contents, this`nextExpiration, this`cookielist
      ensures Valid() && (added <==> !Refused(old(contents), co, secure))
      ensures contents == if added then Stocked(old(contents), co, lastct) else old(contents)
    {
      hide Holds, KeyOf, Refused, NotBefore, CaseBlind, Dated, Stocked;
      ghost var m := contents;
      var rc, replaced, newer := ReplaceExisting(co, secure);
      if rc != CookieOk {
        return false;
      }
      StoreOne(m, contents, lastct, nextExpiration, co, newer);
      Link(newer);
      if !replaced {
        numcookies := numcookies + 1;
      }
      if newer.expires != 0 && newer.expires < nextExpiration {
        nextExpiration := newer.expires;
      }
      return true;
    }

    /** The jar half of `Curl_cookie_add`. */
    method Add(a: Arrival) returns (added: bool)
      requires Valid()
      modifies this`numcookies, this`contents, this`nextExpiration, this`cookielist, this`lastct
      ensures Valid() && (Abs(), added) == Added(old(Abs()), a)
    {
      hide Valid, KeyOf, Refused, Kept, Stocked;
      if a.setcookies >= MAX_SET_COOKIE_AMOUNT || a.parsed.None? {
        return false;
      }
      var co := a.parsed.value;
      if co.prefixSecure && !co.secure {
        return false;
      }
      if co.prefixHost {
        if co.secure && co.path.Some? && co.path.value == "/" && !co.tailmatch {
        } else {
          return false;
        }
      }
      if !running && newsession && co.expires == 0 {
        return false;
      }
      added := Enter(a, co);
    }

    /** The next creation time. */
    method NextTime()
      requires Valid()
      modifies this`lastct
      ensures Valid() && lastct == old(lastct) + 1 && Dated(contents, lastct - 1)
    {
      hide Holds, NotBefore, CaseBlind, Dated;
      KeptDated(contents, lastct, Lasting);
      lastct := lastct + 1;
    }

    /** ... of a cookie that is not dropped: expires the old ones, then stores it unless it is refused. */
    method Enter(a: Arrival, parsed: Cookie) returns (added: bool)
      requires Valid() && a.setcookies < MAX_SET_COOKIE_AMOUNT && a.parsed == Some(parsed)
      requires !Dropped(parsed, running, newsession)
      modifies this`numcookies, this`contents, this`nextExpiration, this`cookielist, this`lastct
      ensures Valid() && (Abs(), added) == Added(old(Abs()), a)
    {
      hide Valid, KeyOf, Refused, Kept, Stocked, Dated, Dropped, Added;
      ghost var before := Abs();
      EnteredIs(before, a, parsed);
      NextTime();
      KeptDated(contents, lastct - 1, Unexpired(a.now));
      var co := parsed.(livecookie := running, creationtime := lastct);
      if !a.noexpire {
        RemoveExpired(a.now);
      }
      if a.pslRejects {
        return false;
      }
      added := Store(co, a.secure);
    }

    // ---------- looking up ----------

    /** The loop of `Curl_cookie_getlist`. */
    static method Matches(list: seq<Cookie>, isIp: bool, host: string, path: string, secure: bool)
      returns (found: seq<Cookie>)
      ensures found == Capped(list, SentTo(isIp, host, path, secure))
    {
      hide PathMatch, TailMatch, EqualFold, Filter;
      ghost var r := SentTo(isIp, host, path, secure);
      found := [];
      var n: nat := 0;
      ScanStart(list, r, 0);
      while n < |list|
        invariant n <= |list| && found == Filter(list[..n], r) && |found| < MAX_COOKIE_SEND_AMOUNT
      {
        var co := list[n];
        FilterStep(list, r, n);
        n := n + 1;
        if if co.secure then secure else true {
          if || co.domain.None?
             || (co.tailmatch && !isIp && TailMatch(co.domain.value, host))
             || ((!co.tailmatch || isIp) && EqualFold(host, co.domain.value)) {
            if co.spath.None? || PathMatch(co.spath.value, path) {
              found := found + [co];
              if |found| >= MAX_COOKIE_SEND_AMOUNT {
                break;
              }
            }
          }
        }
      }
      CappedAt(list, r, n);
    }

    /** `Curl_cookie_getlist`: 1 if the host's bucket is empty. */
    method GetList(host: string, path: string, secure: bool, now: int) returns (rc: int, list: seq<Cookie>)
      requires Valid()
      modifies this`numcookies, this`contents, this`nextExpiration, this`cookielist
      ensures Valid() && (rc == 0 || rc == 1) && (rc == 1 <==> old(cookielist[CookieHash(isIp, Some(host))]) == [])
      ensures Abs() == After(isIp, old(Abs()), GetCookies(host, path, secure, now))
      ensures MayAnswer(isIp, old(Abs()), GetCookies(host, path, secure, now), list)
      ensures rc == 0 ==>
        list == Sort(Capped(cookielist[CookieHash(isIp, Some(host))], SentTo(isIp(host), host, path, secure)))
    {
      hide Holds, CookieHash, Dated, NotBefore, CaseBlind, BucketUsed, Sendable, Sort, Capped, Kept;
      var myhash := CookieHash(isIp, Some(host));
      EmptyBucketIff(isIp, cookielist, contents, host);
      SoundHolds();
      if cookielist[myhash] == [] {
        return 1, [];
      }
      RemoveExpired(now);
      SoundHolds();
      var found := Matches(cookielist[myhash], isIp(host), host, path, secure);
      BucketIsSendable(isIp, cookielist, contents, lastct, host, path, secure);
      return 0, Sort(found);
    }

    // ---------- reading files, and whole runs ----------

    /** `Curl_cookie_init` on an existing jar: adds the cookies of a file, if it can be read, then removes the
        expired ones. */
    method LoadFile(file: Option<seq<Line>>, newsession: bool, setcookies: nat, now: int) returns (count: nat)
      requires Valid()
      modifies this
      ensures Valid() && Abs() == Loaded(old(Abs()), file, newsession, setcookies, now)
      ensures count == if file.None? then setcookies else Counted(file.value, setcookies)
      ensures file.None? ==> cookielist == old(cookielist) && nextExpiration == old(nextExpiration)
    {
      hide Holds, Dated, NotBefore, CaseBlind, Kept, Added;
      count := setcookies;
      this.newsession := newsession;
      running := false;
      ghost var start := Abs();
      if file.Some? {
        var lines := file.value;
        for n := 0 to |lines|
          invariant Valid() && Abs() == LinesAdded(start, lines[..n], setcookies)
          invariant count == Counted(lines[..n], setcookies)
        {
          assert lines[..n + 1][..n] == lines[..n];
          var _ := Add(FromFile(lines[n], count));
          if count < MAX_SET_COOKIE_AMOUNT && lines[n].header && lines[n].parsed.Some? {
            count := count + 1;
          }
        }
        assert lines[..|lines|] == lines;
        RemoveExpired(now);
      }
      running := true;
    }

    method Do(op: Op) returns (list: seq<Cookie>)
      requires Valid()
      modifies this
      ensures Valid() && Abs() == After(isIp, old(Abs()), op) && MayAnswer(isIp, old(Abs()), op, list)
    {
      hide Valid, Kept, Added, Loaded, BucketUsed, Sendable;
      list := [];
      match op {
        case AddCookie(a) => var _ := Add(a);
        case GetCookies(host, path, secure, now) =>
          var rc: int;
          rc, list := GetList(host, path, secure, now);
        case Expire(now) => RemoveExpired(now);
        case Load(file, newsession, setcookies, now) => var _ := LoadFile(file, newsession, setcookies, now);
        case ClearSessionCookies => ClearSession();
        case ClearAllCookies => ClearAll();
      }
    }

    /** Any sequence of operations: the invariant holds at the end, the cookies are those of the same
        operations on the map, and every look-up answered what the map at that time allows. */
    method Run(ops: seq<Op>) returns (answers: seq<seq<Cookie>>)
      requires Valid()
      modifies this
      ensures Valid() && Abs() == AfterRun(isIp, old(Abs()), ops) && |answers| == |ops|
      ensures forall n :: 0 <= n < |ops| ==> MayAnswer(isIp, AfterRun(isIp, old(Abs()), ops[..n]), ops[n], answers[n])
    {
      hide Valid, After, MayAnswer;
      answers := [];
      for n := 0 to |ops|
        invariant Valid() && Abs() == AfterRun(isIp, old(Abs()), ops[..n]) && |answers| == n
        invariant forall k :: 0 <= k < n ==> MayAnswer(isIp, AfterRun(isIp, old(Abs()), ops[..k]), ops[k], answers[k])
      {
        var answer := Do(ops[n]);
        answers := answers + [answer];
        assert ops[..n + 1][..n] == ops[..n];
      }
      assert ops[..|ops|] == ops;
    }
  }

  lemma TwoCookies(isIp: string -> bool, lists: Lists, m: map<Key, Cookie>, lastct: int, i: nat, k: nat, j: nat, l: nat)
    requires Holds(isIp, lists, m) && Dated(m, lastct) && CaseBlind(isIp)
    requires i < BUCKETS && k < |lists[i]| && j < BUCKETS && l < |lists[j]| && (i, k) != (j, l)
    ensures !Replaces(lists[i][k], lists[j][l]) && lists[i][k].creationtime != lists[j][l].creationtime
  {
    ReplacesIffKeys(lists[i][k], lists[j][l]);
    hide KeyOf, Replaces, Home;
  }

  lemma OneCookie(isIp: string -> bool, lists: Lists, m: map<Key, Cookie>, lastct: int, i: nat, k: nat)
    requires Holds(isIp, lists, m) && Dated(m, lastct) && CaseBlind(isIp)
    requires i < BUCKETS && k < |lists[i]|
    ensures lists[i][k].creationtime <= lastct && CookieHash(isIp, lists[i][k].domain) == i
  {
    HomeOfKey(isIp, lists[i][k]);
    hide KeyOf, Home;
  }
}
