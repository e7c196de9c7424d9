/** Lines of a Netscape cookie file (cookie.c): printing a cookie and reading it back. */
module CookieFile {
  import opened Bytes
  import opened CookieDomain
  import opened CookieJar

  // ---------- paths ----------

  /** `sanitize_cookie_path`: drops quotes and a final '/'; what does not start with '/' becomes "/". */
  function Sanitize(cookiePath: string): string {
    var p := if cookiePath != "" && cookiePath[0] == '\"' then cookiePath[1..] else cookiePath;
    var q := if p != "" && p[|p| - 1] == '\"' then p[..|p| - 1] else p;
    if q == "" || q[0] != '/' then "/"
    else if q[|q| - 1] == '/' then q[..|q| - 1]
    else q
  }

  // ---------- numbers ----------

  function DigitChar(d: int): char
    requires 0 <= d < 10
  {
    (d + '0' as int) as char
  }

  function Digits(n: nat): string {
    if n < 10 then [DigitChar(n)] else Digits(n / 10) + [DigitChar(n % 10)]
  }

  function Decimal(n: int): string {
    if n < 0 then "-" + Digits(-n) else Digits(n)
  }

  predicate IsDigit(c: char) {
    '0' <= c <= '9'
  }

  /** The loop over the digits: nothing on overflow. */
  function ReadDigits(s: string, value: nat): (r: Option<nat>)
    requires value <= OFF_T_MAX
    ensures r.Some? ==> r.value <= OFF_T_MAX
  {
    if s == "" || !IsDigit(s[0]) then Some(value)
    else
      var i := s[0] as int - '0' as int;
      if value > (OFF_T_MAX - i) / 10 then None else ReadDigits(s[1..], 10 * value + i)
  }

  function SkipBlanks(s: string): string {
    if s != "" && (s[0] == ' ' || s[0] == '\t') then SkipBlanks(s[1..]) else s
  }

  /** `curlx_strtoofft` in base 10, over strtol or strtoll: numbers with a minus sign are refused. */
  function ReadOffset(str: string): (r: Option<nat>)
    ensures r.Some? ==> r.value <= OFF_T_MAX
  {
    var s := SkipBlanks(str);
    if s == "" || s[0] == '-' || '\n' <= s[0] <= '\r' then None
    else
      var digits := if s[0] == '+' then s[1..] else s;
      if digits == "" || !IsDigit(digits[0]) then None else ReadDigits(digits, 0)
  }

  lemma {:induction false} DigitsRead(n: nat, rest: string)
    requires n <= OFF_T_MAX
    ensures ReadDigits(Digits(n) + rest, 0) == ReadDigits(rest, n)
    ensures Digits(n) != "" && forall i :: 0 <= i < |Digits(n)| ==> IsDigit(Digits(n)[i])
    decreases n
  {
    if n >= 10 {
      var d := [DigitChar(n % 10)];
      DigitsRead(n / 10, d + rest);
      assert Digits(n) + rest == Digits(n / 10) + (d + rest);
      assert (d + rest)[1..] == rest;
    } else {
      assert (Digits(n) + rest)[1..] == rest;
    }
  }

  /** Exactly the numbers from 0 on are read back. */
  lemma DecimalReads(n: int)
    requires n <= OFF_T_MAX
    ensures ReadOffset(Decimal(n)) == if n < 0 then None else Some(n)
    ensures Decimal(n) != "" && Decimal(n) != "TRUE" && Decimal(n) != "FALSE" && '\t' !in Decimal(n)
    ensures '\r' !in Decimal(n) && '\n' !in Decimal(n)
  {
    if n < 0 {
      DigitsOnly(-n);
      assert Decimal(n)[0] == '-' && forall i :: 1 <= i < |Decimal(n)| ==> Decimal(n)[i] == Digits(-n)[i - 1];
    } else {
      DigitsRead(n, "");
      assert Digits(n) + "" == Digits(n);
      assert IsDigit(Digits(n)[0]);
    }
  }

  lemma {:induction false} DigitsOnly(n: nat)
    ensures Digits(n) != "" && forall i :: 0 <= i < |Digits(n)| ==> IsDigit(Digits(n)[i])
    decreases n
  {
    if n >= 10 {
      DigitsOnly(n / 10);
    }
  }

  // ---------- printing ----------

  const HTTP_ONLY := "#HttpOnly_"

  function Flag(b: bool): string {
    if b then "TRUE" else "FALSE"
  }

  function DomainField(c: Cookie): string {
    (if c.tailmatch && c.domain.Some? && !(c.domain.value != "" && c.domain.value[0] == '.') then "." else "")
    + if c.domain.Some? then c.domain.value else "unknown"
  }

  function PathField(c: Cookie): string {
    if c.path.Some? then c.path.value else "/"
  }

  /** The seven fields of a line. */
  function FieldsOf(c: Cookie): seq<string> {
    [DomainField(c), Flag(c.tailmatch), PathField(c), Flag(c.secure), Decimal(c.expires), c.name, c.value]
  }

  function Join(fields: seq<string>): string {
    if fields == [] then "" else if |fields| == 1 then fields[0] else fields[0] + "\t" + Join(fields[1..])
  }

  /** `get_netscape_format`. */
  function Format(c: Cookie): string {
    (if c.httponly then HTTP_ONLY else "") + Join(FieldsOf(c))
  }

  // ---------- reading ----------

  datatype Cerr = Comment | Fields | BadSecureFlag | Range

  datatype Parse = Parsed(co: Cookie) | Refused(e: Cerr)

  /** The cookie read so far, and the number of fields. */
  datatype Reading = Going(co: Cookie, fields: nat) | Stopped(e: Cerr)

  const NO_COOKIE := Cookie("", "", None, None, None, 0, 0, false, false, false, false, false, false)

  function SecureField(co: Cookie, ptr: string, secure: bool, running: bool): Reading {
    if EqualFold(ptr, "TRUE") then
      if secure || running then Going(co.(secure := true), 4) else Stopped(BadSecureFlag)
    else Going(co.(secure := false), 4)
  }

  function NameField(co: Cookie, ptr: string): Cookie {
    var named := co.(name := ptr);
    if EqualFoldUpTo("__Secure-", ptr, 9) then named.(prefixSecure := true)
    else if EqualFoldUpTo("__Host-", ptr, 7) then named.(prefixHost := true)
    else named
  }

  /** One field. A path that looks like a flag is the flag after a missing path. */
  function Field(r: Reading, ptr: string, secure: bool, running: bool): Reading {
    if r.Stopped? then r
    else
      var co, fields := r.co, r.fields;
      match fields
      case 0 => Going(co.(domain := Some(if ptr != "" && ptr[0] == '.' then ptr[1..] else ptr)), 1)
      case 1 => Going(co.(tailmatch := EqualFold(ptr, "TRUE")), 2)
      case 2 =>
        if ptr != "TRUE" && ptr != "FALSE" then Going(co.(path := Some(ptr), spath := Some(Sanitize(ptr))), 3)
        else SecureField(co.(path := Some("/"), spath := Some("/")), ptr, secure, running)
      case 3 => SecureField(co, ptr, secure, running)
      case 4 =>
        var n := ReadOffset(ptr);
        if n.None? then Stopped(Range) else Going(co.(expires := n.value), 5)
      case 5 => Going(NameField(co, ptr), 6)
      case 6 => Going(co.(value := ptr), 7)
      case _ => Going(co, fields + 1)
  }

  function AllFields(r: Reading, tokens: seq<string>, secure: bool, running: bool): Reading
    decreases |tokens|
  {
    if tokens == [] then r else AllFields(Field(r, tokens[0], secure, running), tokens[1..], secure, running)
  }

  function Finish(r: Reading): Parse {
    if r.Stopped? then Refused(r.e)
    else if r.fields == 6 then Parsed(r.co.(value := ""))
    else if r.fields == 7 then Parsed(r.co)
    else Refused(Fields)
  }

  function SkipTabs(s: string): (t: string)
    ensures |t| <= |s| && (t != "" ==> t[0] != '\t')
  {
    if s != "" && s[0] == '\t' then SkipTabs(s[1..]) else s
  }

  /** The tokens `strtok_r` finds between tabs; none is empty. */
  function Tokens(s: string): seq<string>
    decreases |s|
  {
    var t := SkipTabs(s);
    if t == "" then [] else [UpTo(t, '\t')] + Tokens(t[|UpTo(t, '\t')|..])
  }

  /** What `parse_netscape` reads from a line. */
  function ParsedLine(line: string, secure: bool, running: bool): Parse {
    var httponly := HTTP_ONLY <= line;
    var rest := if httponly then line[10..] else line;
    if rest != "" && rest[0] == '#' then Refused(Comment)
    else
      var tokens := Tokens(UpTo(UpTo(rest, '\r'), '\n'));
      Finish(AllFields(Going(NO_COOKIE.(httponly := httponly), 0), tokens, secure, running))
  }

  /** The switch of `parse_netscape`: one field, with the fall-through from a missing path. */
  method ReadField(was: Cookie, at: nat, ptr: string, secure: bool, running: bool) returns (r: Reading)
    ensures r == Field(Going(was, at), ptr, secure, running)
  {
    hide Sanitize, ReadOffset, EqualFold, EqualFoldUpTo, SecureField;
    var co, fields := was, at;
    var inSecure := fields == 3;
    if fields == 0 {
      co := co.(domain := Some(if ptr != "" && ptr[0] == '.' then ptr[1..] else ptr));
    } else if fields == 1 {
      co := co.(tailmatch := EqualFold(ptr, "TRUE"));
    } else if fields == 2 {
      if ptr != "TRUE" && ptr != "FALSE" {
        co := co.(path := Some(ptr), spath := Some(Sanitize(ptr)));
      } else {
        co := co.(path := Some("/"), spath := Some("/"));
        fields := fields + 1;
        inSecure := true;
      }
    } else if fields == 4 {
      var n := ReadOffset(ptr);
      if n.None? {
        return Stopped(Range);
      }
      co := co.(expires := n.value);
    } else if fields == 5 {
      co := co.(name := ptr);
      if EqualFoldUpTo("__Secure-", ptr, 9) {
        co := co.(prefixSecure := true);
      } else if EqualFoldUpTo("__Host-", ptr, 7) {
        co := co.(prefixHost := true);
      }
    } else if fields == 6 {
      co := co.(value := ptr);
    }
    if inSecure {
      r := ReadSecure(co, ptr, secure, running);
    } else {
      r := Going(co, fields + 1);
    }
  }

  /** The secure flag. */
  method ReadSecure(was: Cookie, ptr: string, secure: bool, running: bool) returns (r: Reading)
    ensures r == SecureField(was, ptr, secure, running)
  {
    hide EqualFold;
    var co := was.(secure := false);
    if EqualFold(ptr, "TRUE") {
      if secure || running {
        co := co.(secure := true);
      } else {
        return Stopped(BadSecureFlag);
      }
    }
    return Going(co, 4);
  }

  /** `parse_netscape`. */
  method ParseNetscape(line: string, secure: bool, running: bool) returns (r: Parse)
    ensures r == ParsedLine(line, secure, running)
  {
    hide Field;
    var lineptr, co := line, NO_COOKIE;
    if HTTP_ONLY <= lineptr {
      lineptr := lineptr[10..];
      co := co.(httponly := true);
    }
    if lineptr != "" && lineptr[0] == '#' {
      return Refused(Comment);
    }
    lineptr := UpTo(lineptr, '\r');
    lineptr := UpTo(lineptr, '\n');
    ghost var all := AllFields(Going(co, 0), Tokens(lineptr), secure, running);
    assert ParsedLine(line, secure, running) == Finish(all);
    var fields: nat := 0;
    var buf := SkipTabs(lineptr);
    SkipTabsOnce(lineptr);
    while buf != ""
      invariant SkipTabs(buf) == buf && all == AllFields(Going(co, fields), Tokens(buf), secure, running)
      decreases |buf|
    {
      var ptr := UpTo(buf, '\t');
      NextToken(buf);
      hide Tokens;
      ghost var rest := Tokens(buf[|ptr|..]);
      assert ([ptr] + rest)[1..] == rest;
      var next := ReadField(co, fields, ptr, secure, running);
      if next.Stopped? {
        StoppedStays(next.e, rest, secure, running);
        return Refused(next.e);
      }
      co, fields := next.co, next.fields;
      SkipTabsOnce(buf[|ptr|..]);
      buf := SkipTabs(buf[|ptr|..]);
    }
    if fields == 6 {
      co := co.(value := "");
      fields := fields + 1;
    }
    if fields != 7 {
      return Refused(Fields);
    }
    return Parsed(co);
  }

  lemma {:induction false} SkipTabsOnce(s: string)
    ensures SkipTabs(SkipTabs(s)) == SkipTabs(s) && Tokens(SkipTabs(s)) == Tokens(s)
    decreases |s|
  {
    if s != "" && s[0] == '\t' {
      SkipTabsOnce(s[1..]);
    }
  }

  lemma NextToken(buf: string)
    requires buf != "" && SkipTabs(buf) == buf
    ensures Tokens(buf) == [UpTo(buf, '\t')] + Tokens(buf[|UpTo(buf, '\t')|..]) && |UpTo(buf, '\t')| > 0
  {
  }

  lemma {:induction false} StoppedStays(e: Cerr, tokens: seq<string>, secure: bool, running: bool)
    ensures AllFields(Stopped(e), tokens, secure, running) == Stopped(e)
    decreases |tokens|
  {
    if tokens != [] {
      StoppedStays(e, tokens[1..], secure, running);
    }
  }

  // ---------- printing, then reading ----------

  predicate Plain(s: string) {
    '\t' !in s && '\r' !in s && '\n' !in s
  }

  lemma {:induction false} UpToStops(s: string, c: char, rest: string)
    requires c !in s && (rest == "" || rest[0] == c)
    ensures UpTo(s + rest, c) == s
    decreases |s|
  {
    if s == "" {
      assert s + rest == rest;
    } else {
      assert (s + rest)[1..] == s[1..] + rest;
      UpToStops(s[1..], c, rest);
    }
  }

  /** One field in front of a tab, or at the end; an empty one is no token. */
  lemma TokensOfField(field: string, rest: string)
    requires '\t' !in field && (rest == "" || rest[0] == '\t')
    ensures Tokens(field + rest) == (if field == "" then [] else [field]) + Tokens(rest)
  {
    var s := field + rest;
    if field == "" {
      assert s == rest;
    } else {
      UpToStops(field, '\t', rest);
      assert s[|field|..] == rest;
    }
  }

  function NonEmpty(fields: seq<string>): seq<string> {
    if fields == [] then [] else (if fields[0] == "" then [] else [fields[0]]) + NonEmpty(fields[1..])
  }

  lemma {:induction false} TokensOfJoin(fields: seq<string>)
    requires forall f :: f in fields ==> '\t' !in f
    ensures Tokens(Join(fields)) == NonEmpty(fields)
    decreases |fields|
  {
    if fields != [] {
      var first, rest := fields[0], fields[1..];
      TokensOfJoin(rest);
      if rest == [] {
        TokensOfField(first, "");
        assert first + "" == first;
      } else {
        var tail := "\t" + Join(rest);
        TokensOfField(first, tail);
        assert first + tail == first + "\t" + Join(rest);
        assert tail[1..] == Join(rest);
      }
    }
  }

  lemma {:induction false} JoinHasNo(fields: seq<string>, c: char)
    requires c != '\t' && forall f :: f in fields ==> c !in f
    ensures c !in Join(fields)
    decreases |fields|
  {
    if |fields| > 1 {
      JoinHasNo(fields[1..], c);
    }
  }

  /** A cookie whose text has no tab and no line end. */
  predicate Saveable(c: Cookie) {
    && (c.domain.Some? ==> Plain(c.domain.value)) && (c.path.Some? ==> Plain(c.path.value))
    && Plain(c.name) && Plain(c.value)
  }

  /** The same cookie, but for what a file does not hold; a path counts as sanitized. */
  predicate SameSaved(c: Cookie, d: Cookie) {
    && c.domain == d.domain && c.tailmatch == d.tailmatch && c.spath == d.spath && c.secure == d.secure
    && c.expires == d.expires && c.name == d.name && c.value == d.value && c.httponly == d.httponly
  }

  predicate DomainSurvives(c: Cookie) {
    c.domain.Some?
    && var d := c.domain.value;
      (d == "" || d[0] != '.') && (c.tailmatch || (d != "" && d[0] != '#'))
  }

  /** The sanitized path is that of the path as it is printed. */
  predicate PathSurvives(c: Cookie) {
    PathField(c) != "TRUE" && PathField(c) != "FALSE" && c.spath == Some(Sanitize(PathField(c)))
  }

  /** The path that is read for a printed one. */
  function PathRead(c: Cookie): string {
    if PathField(c) == "" then "/" else PathField(c)
  }

  /** What `get_netscape_format` and `parse_netscape` together demand of a cookie. */
  predicate Survives(c: Cookie, secure: bool, running: bool) {
    && DomainSurvives(c)
    && PathSurvives(c)
    && (c.secure ==> secure || running)
    && c.expires >= 0
    && c.name != ""
  }

  lemma OneField(r: Reading, token: string, rest: seq<string>, secure: bool, running: bool)
    ensures AllFields(r, [token] + rest, secure, running) ==
      AllFields(Field(r, token, secure, running), rest, secure, running)
  {
    assert ([token] + rest)[1..] == rest;
  }

  lemma FieldKeeps(r: Reading, token: string, secure: bool, running: bool)
    requires r.Going? && Field(r, token, secure, running).Going?
    ensures var next := Field(r, token, secure, running);
      next.fields >= 1 && next.co.httponly == r.co.httponly && (r.fields >= 1 ==> next.co.domain == r.co.domain)
  {
    hide EqualFold, EqualFoldUpTo, ReadOffset, Sanitize;
    match r.fields {
      case 0 =>
      case 1 =>
      case 2 =>
      case 3 =>
      case 4 =>
      case 5 =>
      case 6 =>
      case _ =>
    }
  }

  /** Later fields change neither the flag nor the domain. */
  lemma {:induction false} FieldsKeep(r: Reading, tokens: seq<string>, secure: bool, running: bool)
    requires r.Going?
    ensures var all := AllFields(r, tokens, secure, running);
      all.Going? ==> all.co.httponly == r.co.httponly && (r.fields >= 1 ==> all.co.domain == r.co.domain)
    decreases |tokens|
  {
    hide Field;
    if tokens != [] {
      var next := Field(r, tokens[0], secure, running);
      if next.Stopped? {
        StoppedStays(next.e, tokens[1..], secure, running);
      } else {
        FieldKeeps(r, tokens[0], secure, running);
        FieldsKeep(next, tokens[1..], secure, running);
      }
    }
  }

  function Maybe(field: string): seq<string> {
    if field == "" then [] else [field]
  }

  function ExpiresAndOn(c: Cookie): seq<string> {
    [Decimal(c.expires)] + (Maybe(c.name) + Maybe(c.value))
  }

  /** The last fields: name and value. */
  lemma NameAndValue(co: Cookie, c: Cookie, secure: bool, running: bool)
    requires co.domain == c.domain && co.tailmatch == c.tailmatch && co.secure == c.secure
    requires co.expires == c.expires && co.httponly == c.httponly
    ensures var r := Finish(AllFields(Going(co, 5), Maybe(c.name) + Maybe(c.value), secure, running));
      && (r.Parsed? && SameSaved(c, r.co) <==> c.name != "" && co.spath == c.spath)
      && (r.Parsed? ==> r.co.path == co.path)
  {
    hide EqualFoldUpTo, AllFields;
    AllOfNone(secure, running);
    if c.name == "" {
      NoName(co, c, secure, running);
    } else {
      OneField(Going(co, 5), c.name, Maybe(c.value), secure, running);
      ValueOn(NameField(co, c.name), c.value, secure, running);
    }
  }

  lemma ValueOn(co: Cookie, value: string, secure: bool, running: bool)
    ensures Finish(AllFields(Going(co, 6), Maybe(value), secure, running)) == Parsed(co.(value := value))
  {
    hide AllFields;
    AllOfNone(secure, running);
    if value != "" {
      OneField(Going(co, 6), value, [], secure, running);
      assert Maybe(value) == [value] + [];
    }
  }

  lemma NoName(co: Cookie, c: Cookie, secure: bool, running: bool)
    requires c.name == ""
    ensures var r := Finish(AllFields(Going(co, 5), Maybe(c.name) + Maybe(c.value), secure, running));
      !(r.Parsed? && SameSaved(c, r.co)) && (r.Parsed? ==> r.co.path == co.path)
  {
    hide EqualFoldUpTo, AllFields;
    AllOfNone(secure, running);
    assert Maybe(c.name) + Maybe(c.value) == Maybe(c.value);
    if c.value != "" {
      OneField(Going(co, 5), c.value, [], secure, running);
      assert Maybe(c.value) == [c.value] + [];
    }
  }

  lemma AllOfNone(secure: bool, running: bool)
    ensures forall r :: AllFields(r, [], secure, running) == r
  {
  }

  /** The fields from the expiration on. */
  lemma ExpiresOn(co: Cookie, c: Cookie, secure: bool, running: bool)
    requires co.domain == c.domain && co.tailmatch == c.tailmatch && co.secure == c.secure && co.httponly == c.httponly
    ensures var r := Finish(AllFields(Going(co, 4), ExpiresAndOn(c), secure, running));
      && (r.Parsed? && SameSaved(c, r.co) <==> c.name != "" && c.expires >= 0 && co.spath == c.spath)
      && (r.Parsed? ==> r.co.path == co.path)
  {
    var rest := Maybe(c.name) + Maybe(c.value);
    OneField(Going(co, 4), Decimal(c.expires), rest, secure, running);
    DecimalReads(c.expires);
    hide Decimal, ReadOffset, AllFields;
    if c.expires < 0 {
      StoppedStays(Range, rest, secure, running);
    } else {
      NameAndValue(co.(expires := c.expires), c, secure, running);
    }
  }

  lemma FlagsRead(b: bool)
    ensures EqualFold(Flag(b), "TRUE") <==> b
    ensures Flag(b) != "" && Plain(Flag(b)) && ReadOffset(Flag(b)) == None
  {
    assert |"FALSE"| == 5 && |"TRUE"| == 4;
  }

  /** The fields from the secure flag on. */
  lemma SecureOn(co: Cookie, c: Cookie, secure: bool, running: bool)
    requires co.domain == c.domain && co.tailmatch == c.tailmatch && co.httponly == c.httponly
    ensures var flag := SecureField(co, Flag(c.secure), secure, running);
      var p := Finish(AllFields(flag, ExpiresAndOn(c), secure, running));
      && (p.Parsed? && SameSaved(c, p.co) <==>
        (c.secure ==> secure || running) && c.name != "" && c.expires >= 0 && co.spath == c.spath)
      && (p.Parsed? ==> p.co.path == co.path)
  {
    FlagsRead(c.secure);
    var next := SecureField(co, Flag(c.secure), secure, running);
    hide AllFields, EqualFold, Flag;
    if next.Stopped? {
      StoppedStays(BadSecureFlag, ExpiresAndOn(c), secure, running);
    } else {
      ExpiresOn(next.co, c, secure, running);
    }
  }

  /** The fields from the path on. */
  lemma PathOn(co: Cookie, c: Cookie, secure: bool, running: bool)
    requires co.domain == c.domain && co.tailmatch == c.tailmatch && co.httponly == c.httponly
    ensures var p := Finish(AllFields(Going(co, 2), PathAndOn(c), secure, running));
      && (p.Parsed? && SameSaved(c, p.co) <==>
        PathSurvives(c) && (c.secure ==> secure || running) && c.name != "" && c.expires >= 0)
      && (p.Parsed? ==> p.co.path == Some(PathRead(c)))
  {
    var path, rest := PathField(c), [Flag(c.secure)] + ExpiresAndOn(c);
    FlagWord(c.secure);
    hide PathField, AllFields, Sanitize, Flag, ExpiresAndOn, SecureField;
    OneField(Going(co, if path == "" then 2 else 3), Flag(c.secure), ExpiresAndOn(c), secure, running);
    if path == "" {
      assert Maybe(path) + rest == rest && Sanitize("") == "/" by { EmptyIsSlash(); }
      SecureOn(co.(path := Some("/"), spath := Some("/")), c, secure, running);
    } else {
      OneField(Going(co, 2), path, rest, secure, running);
      if path != "TRUE" && path != "FALSE" {
        var next := co.(path := Some(path), spath := Some(Sanitize(path)));
        OneField(Going(next, 3), Flag(c.secure), ExpiresAndOn(c), secure, running);
        SecureOn(next, c, secure, running);
      } else {
        FlagForPath(co, c, secure, running);
      }
    }
  }

  lemma EmptyIsSlash()
    ensures Sanitize("") == "/"
  {
  }

  lemma FlagWord(b: bool)
    ensures Flag(b) == "TRUE" || Flag(b) == "FALSE"
  {
  }

  /** A path that looks like a flag: the flag after it is taken for the expiration, and refused. */
  lemma FlagForPath(co: Cookie, c: Cookie, secure: bool, running: bool)
    requires PathField(c) == "TRUE" || PathField(c) == "FALSE"
    ensures var flag := Field(Going(co, 2), PathField(c), secure, running);
      Finish(AllFields(flag, [Flag(c.secure)] + ExpiresAndOn(c), secure, running)).Refused?
  {
    var next := Field(Going(co, 2), PathField(c), secure, running);
    hide AllFields, EqualFold, Sanitize, ExpiresAndOn;
    if next.Stopped? {
      StoppedStays(next.e, [Flag(c.secure)] + ExpiresAndOn(c), secure, running);
    } else {
      FlagsRead(c.secure);
      OneField(next, Flag(c.secure), ExpiresAndOn(c), secure, running);
      hide ReadOffset, Flag;
      StoppedStays(Range, ExpiresAndOn(c), secure, running);
    }
  }

  /** The fields from the path on, and all of them. */
  function PathAndOn(c: Cookie): seq<string> {
    Maybe(PathField(c)) + ([Flag(c.secure)] + ExpiresAndOn(c))
  }

  function TokensOf(c: Cookie): seq<string> {
    Maybe(DomainField(c)) + ([Flag(c.tailmatch)] + PathAndOn(c))
  }

  /** The first token, and those behind it. */
  function FirstToken(c: Cookie): string {
    if DomainField(c) == "" then Flag(c.tailmatch) else DomainField(c)
  }

  function OtherTokens(c: Cookie): seq<string> {
    if DomainField(c) == "" then PathAndOn(c) else [Flag(c.tailmatch)] + PathAndOn(c)
  }

  lemma TokensSplit(c: Cookie)
    ensures TokensOf(c) == [FirstToken(c)] + OtherTokens(c)
  {
    hide PathAndOn, DomainField;
  }

  function Undotted(s: string): string {
    if s != "" && s[0] == '.' then s[1..] else s
  }

  /** The domain is read back exactly if it survives. */
  lemma DomainRead(c: Cookie)
    requires DomainField(c) == "" || DomainField(c)[0] != '#'
    ensures Some(Undotted(FirstToken(c))) == c.domain <==> DomainSurvives(c)
    ensures DomainSurvives(c) ==> DomainField(c) != ""
  {
    if c.domain.Some? {
      var d := c.domain.value;
      if d == "" {
        if !c.tailmatch {
          assert FirstToken(c) == "FALSE" && "FALSE"[0] == 'F';
        }
      } else if d[0] == '.' {
        assert DomainField(c) == d;
        assert |FirstToken(c)[1..]| < |d|;
      } else if c.tailmatch {
        assert DomainField(c)[1..] == d;
      } else {
        assert DomainField(c) == d;
      }
    }
  }

  /** All the fields, of a line that is not taken for a comment. */
  lemma FieldsRead(co: Cookie, c: Cookie, secure: bool, running: bool)
    requires co.httponly == c.httponly && (DomainField(c) == "" || DomainField(c)[0] != '#')
    ensures var p := Finish(AllFields(Going(co, 0), TokensOf(c), secure, running));
      && (p.Parsed? && SameSaved(c, p.co) <==> Survives(c, secure, running))
      && (p.Parsed? && SameSaved(c, p.co) ==> p.co.path == Some(PathRead(c)))
  {
    var first := FirstToken(c);
    TokensSplit(c);
    DomainRead(c);
    OneField(Going(co, 0), first, OtherTokens(c), secure, running);
    var one := Going(co.(domain := Some(Undotted(first))), 1);
    FieldsKeep(one, OtherTokens(c), secure, running);
    hide AllFields, DomainField, DomainSurvives, FirstToken, PathAndOn, PathSurvives;
    if DomainSurvives(c) {
      DomainOn(one.co, c, secure, running);
    }
  }

  /** The fields behind the domain. */
  lemma DomainOn(co: Cookie, c: Cookie, secure: bool, running: bool)
    requires co.domain == c.domain && co.httponly == c.httponly
    ensures var p := Finish(AllFields(Going(co, 1), [Flag(c.tailmatch)] + PathAndOn(c), secure, running));
      && (p.Parsed? && SameSaved(c, p.co) <==>
        PathSurvives(c) && (c.secure ==> secure || running) && c.name != "" && c.expires >= 0)
      && (p.Parsed? ==> p.co.path == Some(PathRead(c)))
  {
    FlagsRead(c.tailmatch);
    OneField(Going(co, 1), Flag(c.tailmatch), PathAndOn(c), secure, running);
    hide AllFields, EqualFold, Flag, PathSurvives;
    PathOn(co.(tailmatch := c.tailmatch), c, secure, running);
  }

  lemma TokensAre(c: Cookie)
    requires Saveable(c)
    ensures Tokens(Join(FieldsOf(c))) == TokensOf(c)
    ensures '\r' !in Join(FieldsOf(c)) && '\n' !in Join(FieldsOf(c))
  {
    var fields := FieldsOf(c);
    FlagsRead(c.tailmatch);
    FlagsRead(c.secure);
    DecimalReads(c.expires);
    forall f | f in fields
      ensures Plain(f)
    {
    }
    TokensOfJoin(fields);
    JoinHasNo(fields, '\r');
    JoinHasNo(fields, '\n');
    NonEmptyIs(c);
  }

  lemma NonEmptyIs(c: Cookie)
    ensures NonEmpty(FieldsOf(c)) == TokensOf(c)
  {
    FlagsRead(c.tailmatch);
    NonEmptyPath(c);
    hide DomainField, Flag, Decimal, PathField, PathAndOn, NonEmpty;
    var rest := [PathField(c), Flag(c.secure), Decimal(c.expires), c.name, c.value];
    NonEmptyStep(Flag(c.tailmatch), rest);
    NonEmptyStep(DomainField(c), [Flag(c.tailmatch)] + rest);
    assert FieldsOf(c) == [DomainField(c)] + ([Flag(c.tailmatch)] + rest);
  }

  lemma NonEmptyPath(c: Cookie)
    ensures NonEmpty([PathField(c), Flag(c.secure), Decimal(c.expires), c.name, c.value]) == PathAndOn(c)
  {
    FlagsRead(c.secure);
    NonEmptyExpires(c);
    hide Flag, Decimal, PathField, ExpiresAndOn, NonEmpty;
    var rest := [Decimal(c.expires), c.name, c.value];
    NonEmptyStep(Flag(c.secure), rest);
    NonEmptyStep(PathField(c), [Flag(c.secure)] + rest);
    assert [PathField(c), Flag(c.secure), Decimal(c.expires), c.name, c.value] ==
      [PathField(c)] + ([Flag(c.secure)] + rest);
  }

  lemma NonEmptyExpires(c: Cookie)
    ensures NonEmpty([Decimal(c.expires), c.name, c.value]) == ExpiresAndOn(c)
  {
    DecimalReads(c.expires);
    hide Decimal, NonEmpty;
    NonEmptyStep(c.value, []);
    NonEmptyStep(c.name, [c.value]);
    NonEmptyStep(Decimal(c.expires), [c.name, c.value]);
    assert [c.name] + [c.value] == [c.name, c.value];
    assert [c.value] + [] == [c.value] && Maybe(c.value) + [] == Maybe(c.value);
    assert [Decimal(c.expires)] + [c.name, c.value] == [Decimal(c.expires), c.name, c.value];
  }

  lemma NonEmptyStep(first: string, rest: seq<string>)
    ensures NonEmpty([first] + rest) == Maybe(first) + NonEmpty(rest) && NonEmpty([]) == []
  {
    assert ([first] + rest)[1..] == rest;
  }

  lemma LineEnds(body: string, end: string)
    requires '\r' !in body && '\n' !in body && (end == "" || end == "\n")
    ensures UpTo(UpTo(body + end, '\r'), '\n') == body
  {
    UpToStops(body + end, '\r', "");
    assert body + end + "" == body + end;
    UpToStops(body, '\n', end);
  }

  lemma BodyStarts(c: Cookie)
    ensures var body, dom := Join(FieldsOf(c)), DomainField(c);
      body != "" && body[0] == if dom == "" then '\t' else dom[0]
  {
    hide DomainField, Flag, Decimal;
    var f := FieldsOf(c);
    assert Join(f) == f[0] + "\t" + Join(f[1..]);
  }

  /** What is left of a printed line after the prefix for HTTP-only cookies is taken off. */
  lemma LineStarts(c: Cookie, body: string, line: string)
    requires body != "" && line == (if c.httponly then HTTP_ONLY else "") + body
    ensures c.httponly ==> HTTP_ONLY <= line && line[10..] == body
    ensures !c.httponly ==> line == body
    ensures !c.httponly && body[0] != '#' ==> !(HTTP_ONLY <= line)
  {
    assert |HTTP_ONLY| == 10 && HTTP_ONLY[0] == '#';
  }

  /** Printing a cookie and reading the line gives the same cookie back exactly if it survives: with or
      without the line end, whatever the name, value and path are. */
  lemma RoundTripIff(c: Cookie, end: string, secure: bool, running: bool)
    requires Saveable(c) && (end == "" || end == "\n")
    ensures var p := ParsedLine(Format(c) + end, secure, running);
      && (p.Parsed? && SameSaved(c, p.co) <==> Survives(c, secure, running))
      && (p.Parsed? && SameSaved(c, p.co) ==> p.co.path == Some(PathRead(c)))
  {
    var body, line := Join(FieldsOf(c)), Format(c) + end;
    assert line == (if c.httponly then HTTP_ONLY else "") + (body + end);
    hide Join, FieldsOf, Format, DomainField, TokensOf, Survives, AllFields, Tokens, Saveable, ParsedLine, UpTo;
    TokensAre(c);
    BodyStarts(c);
    LineStarts(c, body + end, line);
    LineEnds(body, end);
    if DomainField(c) != "" && DomainField(c)[0] == '#' {
      HashIsLost(c, line, secure, running);
    } else {
      LineIsFields(c, body + end, line, secure, running);
      FieldsRead(NO_COOKIE.(httponly := c.httponly), c, secure, running);
    }
  }

  /** A line that is not a comment is read field by field. */
  lemma LineIsFields(c: Cookie, rest: string, line: string, secure: bool, running: bool)
    requires rest != "" && rest[0] != '#'
    requires c.httponly ==> HTTP_ONLY <= line && line[10..] == rest
    requires !c.httponly ==> line == rest && !(HTTP_ONLY <= line)
    ensures var tokens := Tokens(UpTo(UpTo(rest, '\r'), '\n'));
      ParsedLine(line, secure, running)
      == Finish(AllFields(Going(NO_COOKIE.(httponly := c.httponly), 0), tokens, secure, running))
  {
    hide AllFields, Tokens, UpTo;
  }

  /** A domain that starts with '#' makes the line a comment, or an HTTP-only cookie. */
  lemma HashIsLost(c: Cookie, line: string, secure: bool, running: bool)
    requires Saveable(c) && DomainField(c) != "" && DomainField(c)[0] == '#'
    requires
      if c.httponly then HTTP_ONLY <= line && line[10..] != "" && line[10..][0] == '#'
      else line != "" && line[0] == '#'
    ensures var p := ParsedLine(line, secure, running); !(p.Parsed? && SameSaved(c, p.co))
    ensures !Survives(c, secure, running)
  {
    if HTTP_ONLY <= line {
      var start := Going(NO_COOKIE.(httponly := true), 0);
      FieldsKeep(start, Tokens(UpTo(UpTo(line[10..], '\r'), '\n')), secure, running);
      hide AllFields, Tokens, UpTo;
    }
  }

  /** A cookie with an empty path changes its key on the second trip: the first gives it the path "/" with the
      sanitized form "/", and the second the same path with the form "". */
  lemma EmptyPathDrifts(c: Cookie, secure: bool, running: bool) returns (d: Cookie, e: Cookie)
    requires Saveable(c) && Survives(c, secure, running) && c.path == Some("")
    ensures ParsedLine(Format(c), secure, running) == Parsed(d) && SameSaved(c, d)
    ensures ParsedLine(Format(d), secure, running) == Parsed(e) && !SameSaved(d, e) && KeyOf(d) != KeyOf(e)
    ensures d.path == e.path == Some("/") && d.spath == Some("/") && e.spath == Some("")
  {
    RoundTripIff(c, "", secure, running);
    assert Format(c) + "" == Format(c);
    d := ParsedLine(Format(c), secure, running).co;
    var like := d.(spath := Some(""));
    RoundTripIff(like, "", secure, running);
    assert Format(like) + "" == Format(like) == Format(d);
    e := ParsedLine(Format(d), secure, running).co;
  }
}
