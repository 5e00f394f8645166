/**
 * The parsed Google ID token: the constructor's three-part split and
 * decoding, the claim checks and the base64url conversion. Base64 and JSON
 * decoding are parameters; the signature check, which fetches Google's
 * certificates, enters as its outcome.
 */
module GoogleJwt {
  import opened Outcomes
  import opened Values
  import opened Syntax

  /** `explode('.', $jwt)`: the pieces between the dots, at least one. */
  function Explode(s: string): (parts: seq<string>)
    ensures |parts| >= 1
    ensures forall i :: 0 <= i < |parts| ==> '.' !in parts[i]
    decreases |s|
  {
    if s == [] then [""]
    else
      var rest := Explode(s[1..]);
      if s[0] == '.' then [""] + rest
      else
        assert forall i :: 1 <= i < |rest| ==> rest[1..][i - 1] == rest[i];
        [[s[0]] + rest[0]] + rest[1..]
  }

  /** `implode('.', $parts)`. */
  function Join(parts: seq<string>): string
    requires |parts| >= 1
    decreases |parts|
  {
    if |parts| == 1 then parts[0] else parts[0] + "." + Join(parts[1..])
  }

  /** Splitting loses nothing: joining the pieces gives the token back. */
  lemma {:induction false} JoinExplode(s: string)
    ensures Join(Explode(s)) == s
    decreases |s|
  {
    if s != [] {
      var rest := Explode(s[1..]);
      JoinExplode(s[1..]);
      if s[0] == '.' {
        assert Explode(s) == [""] + rest;
        assert ([""] + rest)[1..] == rest;
        assert s == "." + s[1..];
      } else {
        var parts := [[s[0]] + rest[0]] + rest[1..];
        assert Explode(s) == parts;
        if |rest| == 1 {
          assert Join(rest) == rest[0];
        } else {
          assert parts[1..] == rest[1..];
          assert Join(rest) == rest[0] + "." + Join(rest[1..]);
        }
        assert s == [s[0]] + s[1..];
      }
    }
  }

  /** Splitting dot-free pieces joined by dots gives the pieces back. */
  lemma {:induction false} ExplodeJoin(parts: seq<string>)
    requires |parts| >= 1
    requires forall i :: 0 <= i < |parts| ==> '.' !in parts[i]
    ensures Explode(Join(parts)) == parts
    decreases |parts|, |parts[0]|
  {
    if |parts| == 1 {
      ExplodeDotFree(parts[0]);
    } else {
      ExplodeJoin(parts[1..]);
      var tail := "." + Join(parts[1..]);
      assert tail[0] == '.' && tail[1..] == Join(parts[1..]);
      assert Explode(tail) == [""] + parts[1..];
      ExplodePrefix(parts[0], tail);
      assert Join(parts) == parts[0] + tail;
      assert Explode(Join(parts)) == [parts[0] + ""] + parts[1..];
      assert parts[0] + "" == parts[0];
      assert [parts[0]] + parts[1..] == parts;
    }
  }

  /** A dot-free string is a single piece. */
  lemma {:induction false} ExplodeDotFree(s: string)
    requires '.' !in s
    ensures Explode(s) == [s]
    decreases |s|
  {
    if s != [] {
      assert s[0] in s;
      assert forall c :: c in s[1..] ==> c in s;
      ExplodeDotFree(s[1..]);
      assert s == [s[0]] + s[1..];
    }
  }

  /** A dot-free prefix glues onto the first piece of what follows it. */
  lemma {:induction false} ExplodePrefix(p: string, t: string)
    requires '.' !in p
    ensures Explode(p + t) == [p + Explode(t)[0]] + Explode(t)[1..]
    decreases |p|
  {
    if p != [] {
      assert p[0] in p;
      assert forall c :: c in p[1..] ==> c in p;
      ExplodePrefix(p[1..], t);
      var e := Explode(t);
      var rest := Explode(p[1..] + t);
      assert rest == [p[1..] + e[0]] + e[1..];
      assert (p + t)[0] == p[0] && (p + t)[1..] == p[1..] + t;
      assert Explode(p + t) == [[p[0]] + rest[0]] + rest[1..];
      assert rest[0] == p[1..] + e[0] && rest[1..] == e[1..];
      assert [p[0]] + rest[0] == p + e[0];
      assert Explode(p + t) == [p + e[0]] + e[1..];
    } else {
      assert p + t == t;
      assert p + Explode(t)[0] == Explode(t)[0];
      assert Explode(t) == [Explode(t)[0]] + Explode(t)[1..];
    }
  }

  /** A JSON value decoded with `assoc = true` is a PHP array holding something. */
  predicate NonEmptyArray(j: Json) {
    (j.JObj? && |j.members| > 0) || (j.JArr? && |j.items| > 0)
  }

  /** A decoded token: header and payload arrays, and the raw signature. */
  datatype Token = Token(jwt: string, header: Json, payload: Json, signature: string)

  /**
   * `$prop = json_decode(base64_decode($part), true) or throw …` for an
   * array-typed property: the assignment happens before the `or`, so a
   * failed decode (`false` into `json_decode`, `null` or a scalar into the
   * property) is a type error, and an empty array is refused after it.
   */
  function DecodePart(part: Option<string>, b64: string -> Option<string>, json: string -> Json): (r: Result<Json>)
    ensures r.Ok? <==> part.Some? && b64(part.value).Some? && NonEmptyArray(json(b64(part.value).value))
    ensures r.Ok? ==> r.value == json(b64(part.value).value)
    ensures r.Err? && part.Some? && b64(part.value).Some? && (json(b64(part.value).value).JObj? || json(b64(part.value).value).JArr?) ==>
      r.error == MalformedJwt
  {
    match part
    case None => Err(TypeMismatch)
    case Some(p) =>
      match b64(p)
      case None => Err(TypeMismatch)
      case Some(bytes) =>
        var j := json(bytes);
        if !(j.JObj? || j.JArr?) then Err(TypeMismatch)
        else if NonEmptyArray(j) then Ok(j)
        else Err(MalformedJwt)
  }

  /** `$parts[$i]`: a missing piece reads as null. */
  function Piece(parts: seq<string>, i: nat): (r: Option<string>)
    ensures r.Some? <==> i < |parts|
    ensures r.Some? ==> r.value == parts[i]
  {
    if i < |parts| then Some(parts[i]) else None
  }

  /**
   * The constructor: header, payload and signature from the first three
   * pieces, in that order, each failure stopping the parse. The signature
   * must decode to a truthy string.
   */
  function Parse(jwt: string, b64: string -> Option<string>, json: string -> Json): (r: Result<Token>)
    ensures r.Ok? <==>
      && var parts := Explode(jwt);
      && |parts| >= 3
      && b64(parts[0]).Some? && NonEmptyArray(json(b64(parts[0]).value))
      && b64(parts[1]).Some? && NonEmptyArray(json(b64(parts[1]).value))
      && b64(parts[2]).Some? && StrTruthy(b64(parts[2]).value)
    ensures r.Ok? ==> r.value.jwt == jwt && NonEmptyArray(r.value.header) && NonEmptyArray(r.value.payload)
    ensures r.Ok? ==> r.value.signature == b64(Explode(jwt)[2]).value && StrTruthy(r.value.signature)
    ensures r.Err? ==> r.error == TypeMismatch || r.error == MalformedJwt
  {
    var parts := Explode(jwt);
    match DecodePart(Piece(parts, 0), b64, json)
    case Err(e) => Err(e)
    case Ok(header) =>
      match DecodePart(Piece(parts, 1), b64, json)
      case Err(e) => Err(e)
      case Ok(payload) =>
        match Piece(parts, 2)
        case None => Err(TypeMismatch)
        case Some(p) =>
          match b64(p)
          case None => Err(TypeMismatch)
          case Some(sig) =>
            if StrTruthy(sig) then Ok(Token(jwt, header, payload, sig)) else Err(MalformedJwt)
  }

  /** `$this->payload[$key]`: a list has no string keys; a missing key reads as null. */
  function Claim(payload: Json, key: string): Json {
    if payload.JObj? && key in payload.members then payload.members[key] else JNull
  }

  predicate IsAsciiLetter(c: char) {
    ('a' <= c <= 'z') || ('A' <= c <= 'Z')
  }

  /** The position of the first `c` in `s`, or |s|. */
  function Find(s: string, stops: set<char>): (i: nat)
    ensures i <= |s|
    ensures forall j :: 0 <= j < i ==> s[j] !in stops
    ensures i < |s| ==> s[i] in stops
    decreases |s|
  {
    if s == [] || s[0] in stops then 0 else 1 + Find(s[1..], stops)
  }

  /** The position of the last `c` in `s`, if any. */
  function LastIndex(s: string, c: char): (r: Option<nat>)
    ensures r.Some? ==> r.value < |s| && s[r.value] == c && forall j :: r.value < j < |s| ==> s[j] != c
    ensures r.None? ==> c !in s
    decreases |s|
  {
    if s == [] then None
    else if s[|s| - 1] == c then Some(|s| - 1)
    else
      assert s == s[..|s| - 1] + [s[|s| - 1]];
      LastIndex(s[..|s| - 1], c)
  }

  /** Everything after the last `@`: the host and port part of an authority. */
  function AfterLastAt(s: string): (r: string)
    ensures '@' !in r
    ensures forall c :: c in r ==> c in s
    ensures '@' !in s ==> r == s
  {
    match LastIndex(s, '@')
    case None => s
    case Some(i) =>
      var t := s[i + 1..];
      assert forall k :: 0 <= k < |t| ==> t[k] == s[i + 1 + k];
      t
  }

  /** The characters `parse_url` accepts in a scheme. */
  predicate IsSchemeChar(c: char) {
    IsAsciiLetter(c) || IsDigit(c) || c == '+' || c == '-' || c == '.'
  }

  /** C's `iscntrl`: the characters `parse_url` turns into `_` in a host. */
  predicate IsControl(c: char) {
    c as int < 32 || c as int == 127
  }

  /** A character that can appear in a host `parse_url` returns. */
  predicate HostChar(c: char) {
    c != '/' && c != '?' && c != '#' && c != '@' && !IsControl(c)
  }

  /** The host with every control character replaced by `_`. */
  function ReplaceControl(s: string): (r: string)
    ensures |r| == |s|
    ensures (forall c :: c in s ==> !IsControl(c)) ==> r == s
    ensures (forall c :: c in s ==> c != '/' && c != '?' && c != '#' && c != '@') ==> forall c :: c in r ==> HostChar(c)
  {
    var r := seq(|s|, i requires 0 <= i < |s| => if IsControl(s[i]) then '_' else s[i]);
    assert (forall c :: c in s ==> c != '/' && c != '?' && c != '#' && c != '@') ==> forall i :: 0 <= i < |r| ==> HostChar(r[i]) by {
      if forall c :: c in s ==> c != '/' && c != '?' && c != '#' && c != '@' {
        forall i | 0 <= i < |r|
          ensures HostChar(r[i])
        {
          assert s[i] in s;
        }
      }
    }
    r
  }

  /** The number of leading digits of `s`, counting at most `max`. */
  function DigitRun(s: string, max: nat): (n: nat)
    ensures n <= |s| && n <= max
    ensures forall j :: 0 <= j < n ==> IsDigit(s[j])
    ensures n < |s| && n < max ==> !IsDigit(s[n])
    decreases |s|
  {
    if s == [] || max == 0 || !IsDigit(s[0]) then 0 else 1 + DigitRun(s[1..], max - 1)
  }

  /** `strtol` reads a port from `t`: it starts with digits denoting at most 65535. */
  predicate PortOk(t: string) {
    var n := DigitRun(t, |t|);
    n > 0 && DigitsValue(t[..n]) <= 65535
  }

  /** A port written out: one to five digits denoting at most 65535. */
  predicate IsPort(t: string) {
    0 < |t| <= 5 && (forall j :: 0 <= j < |t| ==> IsDigit(t[j])) && DigitsValue(t) <= 65535
  }

  predicate StartsWithSlashes(url: string) {
    |url| >= 2 && url[0] == '/' && url[1] == '/'
  }

  function LowerAscii(c: char): char {
    if 'A' <= c <= 'Z' then (c as int + 32) as char else c
  }

  /** The scheme `file`, in any letter case. */
  predicate IsFileScheme(s: string) {
    |s| == 4 && LowerAscii(s[0]) == 'f' && LowerAscii(s[1]) == 'i' && LowerAscii(s[2]) == 'l' && LowerAscii(s[3]) == 'e'
  }

  /**
   * `parse_url`'s port step for the colon at `e`: one to five digits up to
   * the end or a `/` are a port, and the host is then read from the start
   * (after a leading `//`); a port above 65535 rejects the URL. Otherwise a
   * URL starting with `//` is read from there, and any other has no host.
   * The result is where the host starts and whether a nonzero port was read.
   */
  function PortStep(url: string, e: nat): (r: Option<(nat, bool)>)
    requires e < |url|
    ensures r.Some? ==> r.value.0 <= |url|
  {
    var run := DigitRun(url[e + 1..], 6);
    var pp := e + 1 + run;
    if 0 < run < 6 && (pp == |url| || url[pp] == '/') then
      var port := DigitsValue(url[e + 1..pp]);
      if port <= 65535 then Some((if StartsWithSlashes(url) then 2 else 0, port != 0)) else None
    else if run == 0 && pp == |url| then None
    else if StartsWithSlashes(url) then Some((2, false))
    else None
  }

  /** Everything before the colon at `e` is a scheme character. */
  predicate ValidScheme(url: string, e: nat)
    requires e <= |url|
  {
    forall j :: 0 <= j < e ==> IsSchemeChar(url[j])
  }

  /**
   * `parse_url` after the scheme ending at the colon `e`: `//` puts the
   * authority after it, except for `file:///`; digits up to the end or a
   * `/` make it `host:port` instead; anything else has no host.
   */
  function AfterScheme(url: string, e: nat): (r: Option<(nat, bool)>)
    requires 0 < e < |url|
    ensures r.Some? ==> r.value.0 <= |url|
  {
    if e + 1 == |url| then None
    else if url[e + 1] != '/' then
      var run := DigitRun(url[e + 1..], |url|);
      if (e + 1 + run == |url| || url[e + 1 + run] == '/') && run < 6 then PortStep(url, e) else None
    else if e + 2 < |url| && url[e + 2] == '/' then
      if IsFileScheme(url[..e]) && e + 3 < |url| && url[e + 3] == '/' then None
      else Some((e + 3, false))
    else None
  }

  /**
   * Where `parse_url` starts reading the host, and whether it has read a
   * port already; `None` when the URL is a bare path, has only a scheme, or
   * is rejected. The first `:` ends a scheme when it is not the first
   * character and everything before it is a scheme character; otherwise
   * the port step decides, or a leading `//`.
   */
  function HostStart(url: string): (r: Option<(nat, bool)>)
    ensures r.Some? ==> r.value.0 <= |url|
    ensures ':' !in url && !StartsWithSlashes(url) ==> r.None?
  {
    var e := Find(url, {':'});
    if e == |url| then
      if StartsWithSlashes(url) then Some((2, false)) else None
    else if e == 0 then PortStep(url, 0)
    else if !ValidScheme(url, e) then
      if e + 1 < |url| && e < Find(url, {'?', '#'}) then PortStep(url, e)
      else if StartsWithSlashes(url) then Some((2, false))
      else None
    else AfterScheme(url, e)
  }

  /** The host and port text of the authority at the start of `rest`: up to the first `/`, `?` or `#`, after the last `@`. */
  function HostPortPart(rest: string): (hp: string)
    ensures forall c :: c in hp ==> c != '/' && c != '?' && c != '#' && c != '@'
    ensures (forall c :: c in rest ==> c != '/' && c != '?' && c != '#' && c != '@') ==> hp == rest
  {
    var n := Find(rest, {'/', '?', '#'});
    var auth := rest[..n];
    assert forall c :: c in auth ==> c != '/' && c != '?' && c != '#';
    assert (forall c :: c in rest ==> c != '/' && c != '?' && c != '#') ==> auth == rest by {
      if forall c :: c in rest ==> c != '/' && c != '?' && c != '#' {
        FindAbsent(rest, {'/', '?', '#'});
      }
    }
    AfterLastAt(auth)
  }

  /** The colon before the port: the last one, unless the text is a bracketed IPv6 address. */
  function PortColon(hp: string): (r: Option<nat>)
    ensures r.Some? ==> r.value < |hp| && hp[r.value] == ':' && forall j :: r.value < j < |hp| ==> hp[j] != ':'
    ensures r.None? ==> ':' !in hp || (hp[0] == '[' && hp[|hp| - 1] == ']')
  {
    if |hp| > 0 && hp[0] == '[' && hp[|hp| - 1] == ']' then None else LastIndex(hp, ':')
  }

  /**
   * The host `parse_url` reads from the authority at the start of `rest`:
   * before the port colon, if any. Unless a port was read already, the
   * text after that colon must be empty or at most five characters
   * `strtol` reads as a port. An empty host or a bad port rejects the URL.
   */
  function HostIn(rest: string, portRead: bool): (host: Option<string>)
    ensures host.Some? ==> host.value != "" && forall c :: c in host.value ==> HostChar(c)
  {
    var hp := HostPortPart(rest);
    match PortColon(hp)
    case None => if hp == "" then None else Some(ReplaceControl(hp))
    case Some(i) =>
      var port := hp[i + 1..];
      if !portRead && (|port| > 5 || (port != "" && !PortOk(port))) then None
      else if i == 0 then None
      else
        assert forall c :: c in hp[..i] ==> c in hp;
        Some(ReplaceControl(hp[..i]))
  }

  /**
   * `parse_url($url, PHP_URL_HOST)`: `None` when the URL has no host or is
   * rejected. A string with neither a `:` nor a leading `//` has no host.
   */
  function UrlHost(url: string): (host: Option<string>)
    ensures host.Some? ==> host.value != "" && forall c :: c in host.value ==> HostChar(c)
    ensures ':' !in url && !StartsWithSlashes(url) ==> host.None?
  {
    match HostStart(url)
    case None => None
    case Some((from, portRead)) => HostIn(url[from..], portRead)
  }

  const GoogleIssuer := "accounts.google.com"

  /** The URL form of the issuer, `https://accounts.google.com`. */
  const GoogleIssuerUrl := "https" + "://" + GoogleIssuer

  /**
   * `isValidIssuer()` as written: the host of the `iss` claim must be
   * `accounts.google.com`. A missing or non-string claim is a type error in
   * `parse_url`.
   */
  function IsValidIssuerAsWritten(payload: Json): (r: Result<bool>)
    ensures r.Err? <==> !Claim(payload, "iss").JStr?
    ensures r.Err? ==> r.error == TypeMismatch
    ensures r.Ok? ==> (r.value <==> UrlHost(Claim(payload, "iss").s) == Some(GoogleIssuer))
  {
    match Claim(payload, "iss")
    case JStr(iss) => Ok(UrlHost(iss) == Some(GoogleIssuer))
    case _ => Err(TypeMismatch)
  }

  /**
   * `isValidIssuer()` as documented: `iss` is `accounts.google.com` itself
   * or a URL whose host it is.
   */
  function IsValidIssuer(payload: Json): (r: Result<bool>)
    ensures r.Err? <==> !Claim(payload, "iss").JStr?
    ensures r.Err? ==> r.error == TypeMismatch
    ensures r.Ok? ==> (r.value <==> Claim(payload, "iss").s == GoogleIssuer || UrlHost(Claim(payload, "iss").s) == Some(GoogleIssuer))
  {
    match Claim(payload, "iss")
    case JStr(iss) => Ok(iss == GoogleIssuer || UrlHost(iss) == Some(GoogleIssuer))
    case _ => Err(TypeMismatch)
  }

  /** A payload carrying just an issuer claim. */
  function IssuedBy(iss: string): Json {
    JObj(map["iss" := JStr(iss)])
  }

  /** Scanning a string that holds none of the stop characters runs to its end. */
  lemma {:induction false} FindAbsent(s: string, stops: set<char>)
    requires forall c :: c in s ==> c !in stops
    ensures Find(s, stops) == |s|
    decreases |s|
  {
    if s != [] {
      assert s[0] in s;
      assert forall c :: c in s[1..] ==> c in s;
      FindAbsent(s[1..], stops);
    }
  }

  /** A host name: nonempty, no URL delimiter and no control character in it. */
  predicate PlainHost(host: string) {
    host != "" && forall c :: c in host ==> c !in {'/', '?', '#', ':', '@'} && !IsControl(c)
  }

  /** All of a string of at most `max` digits is one run. */
  lemma {:induction false} WholeRun(s: string, max: nat)
    requires |s| <= max && forall j :: 0 <= j < |s| ==> IsDigit(s[j])
    ensures DigitRun(s, max) == |s|
    decreases |s|
  {
    if s != [] {
      WholeRun(s[1..], max - 1);
    }
  }

  /** A run of digits stops at a character that is not one. */
  lemma {:induction false} RunBeforeColon(p: string, t: string, max: nat)
    requires |p| < max && (forall j :: 0 <= j < |p| ==> IsDigit(p[j]))
    requires t != [] && !IsDigit(t[0])
    ensures DigitRun(p + t, max) == |p|
    decreases |p|
  {
    if p != [] {
      assert (p + t)[1..] == p[1..] + t;
      RunBeforeColon(p[1..], t, max - 1);
    } else {
      assert (p + t)[0] == t[0];
    }
  }

  /** `scheme://rest` is read from `rest`, when `rest` does not start with `/`. */
  lemma SchemeStart(scheme: string, rest: string)
    requires scheme != [] && forall c :: c in scheme ==> IsAsciiLetter(c)
    requires rest != [] && rest[0] != '/'
    ensures HostStart(scheme + "://" + rest) == Some((|scheme| + 3, false))
    ensures (scheme + "://" + rest)[|scheme| + 3..] == rest
  {
    var url := scheme + "://" + rest;
    var e := |scheme|;
    assert url == scheme + ("://" + rest);
    assert Find(url, {':'}) == e by {
      assert forall c :: c in scheme ==> c != ':';
      FindAbsent(scheme, {':'});
      FindPrefix(scheme, "://" + rest, {':'});
    }
    assert ValidScheme(url, e) by {
      forall j | 0 <= j < e
        ensures IsSchemeChar(url[j])
      {
        assert url[j] == scheme[j] && scheme[j] in scheme;
      }
    }
    assert url[e + 1] == '/' && url[e + 2] == '/' && url[e + 3] == rest[0];
    assert url[e + 3..] == rest;
    assert AfterScheme(url, e) == Some((e + 3, false));
  }

  /** A host name with nothing after it is read whole. */
  lemma PlainHostIn(host: string, portRead: bool)
    requires PlainHost(host)
    ensures HostIn(host, portRead) == Some(host)
  {
    assert forall c :: c in host ==> c != '/' && c != '?' && c != '#' && c != '@' && c != ':' && !IsControl(c);
    assert HostPortPart(host) == host;
    assert ':' !in host;
  }

  /** In `host:port` the port colon is the one after the host. */
  lemma ColonAfterHost(host: string, port: string)
    requires PlainHost(host) && port != [] && ':' !in port && port[|port| - 1] != ']'
    ensures PortColon(host + ":" + port) == Some(|host|)
  {
    var hp := host + ":" + port;
    assert hp[|host|] == ':';
    assert hp[|hp| - 1] == port[|port| - 1];
    forall j | |host| < j < |hp|
      ensures hp[j] != ':'
    {
      assert hp[j] == port[j - |host| - 1] && port[j - |host| - 1] in port;
    }
  }

  /** The host and port text of `host:port` is all of it. */
  lemma HostPortWhole(host: string, port: string)
    requires PlainHost(host) && PlainHost(port)
    ensures HostPortPart(host + ":" + port) == host + ":" + port
  {
    var hp := host + ":" + port;
    assert forall c :: c in hp ==> c in host || c == ':' || c in port;
  }

  /** A host name followed by a port: the host is what precedes the colon. */
  lemma HostPortIn(host: string, port: string, portRead: bool)
    requires PlainHost(host) && IsPort(port)
    ensures HostIn(host + ":" + port, portRead) == Some(host)
  {
    var hp := host + ":" + port;
    assert forall c :: c in port ==> IsDigit(c);
    HostPortWhole(host, port);
    ColonAfterHost(host, port);
    assert hp[|host| + 1..] == port && hp[..|host|] == host;
    WholeRun(port, |port|);
    assert port[..|port|] == port;
  }

  /** A host name followed by a text `strtol` does not read as a port is rejected. */
  lemma HostBadPortIn(host: string, port: string)
    requires PlainHost(host) && PlainHost(port) && port[|port| - 1] != ']'
    requires |port| > 5 || !PortOk(port)
    ensures HostIn(host + ":" + port, false).None?
  {
    var hp := host + ":" + port;
    assert port[0] in port;
    HostPortWhole(host, port);
    ColonAfterHost(host, port);
    assert hp[|host| + 1..] == port;
  }

  /** `scheme://host` has the host `host`. */
  lemma SchemeHost(scheme: string, host: string)
    requires scheme != [] && forall c :: c in scheme ==> IsAsciiLetter(c)
    requires PlainHost(host)
    ensures UrlHost(scheme + "://" + host) == Some(host)
  {
    assert host[0] in host;
    SchemeStart(scheme, host);
    PlainHostIn(host, false);
  }

  /** `scheme://host:port` has the host `host`. */
  lemma SchemeHostPort(scheme: string, host: string, port: string)
    requires scheme != [] && forall c :: c in scheme ==> IsAsciiLetter(c)
    requires PlainHost(host) && IsPort(port)
    ensures UrlHost(scheme + "://" + host + ":" + port) == Some(host)
  {
    assert host[0] in host;
    assert (host + ":" + port)[0] == host[0];
    assert scheme + "://" + host + ":" + port == scheme + "://" + (host + ":" + port);
    SchemeStart(scheme, host + ":" + port);
    HostPortIn(host, port, false);
  }

  /** `scheme://host:text` is rejected when `text` is no port. */
  lemma SchemeHostBadPort(scheme: string, host: string, port: string)
    requires scheme != [] && forall c :: c in scheme ==> IsAsciiLetter(c)
    requires PlainHost(host) && PlainHost(port) && port[|port| - 1] != ']'
    requires |port| > 5 || !PortOk(port)
    ensures UrlHost(scheme + "://" + host + ":" + port).None?
  {
    assert host[0] in host;
    assert (host + ":" + port)[0] == host[0];
    assert scheme + "://" + host + ":" + port == scheme + "://" + (host + ":" + port);
    SchemeStart(scheme, host + ":" + port);
    HostBadPortIn(host, port);
  }

  /** The port step on `host:port` reads the port and starts the host at the beginning. */
  lemma PortStepReads(host: string, port: string)
    requires PlainHost(host) && IsPort(port)
    ensures PortStep(host + ":" + port, |host|) == Some((0, DigitsValue(port) != 0))
  {
    var url := host + ":" + port;
    var e := |host|;
    assert url[e + 1..] == port && url[e + 1..|url|] == port;
    WholeRun(port, 6);
    assert host[0] in host && url[0] == host[0] && !StartsWithSlashes(url);
  }

  /** `host:port` without a scheme is read through the port step and has the host `host`. */
  lemma HostPort(host: string, port: string)
    requires PlainHost(host) && IsPort(port)
    ensures UrlHost(host + ":" + port) == Some(host)
  {
    var url := host + ":" + port;
    var e := |host|;
    assert url == host + (":" + port);
    assert Find(url, {':'}) == e by {
      assert forall c :: c in host ==> c != ':';
      FindAbsent(host, {':'});
      FindPrefix(host, ":" + port, {':'});
    }
    PortStepReads(host, port);
    if ValidScheme(url, e) {
      assert url[e + 1..] == port && url[e + 1] == port[0];
      WholeRun(port, |url|);
      assert AfterScheme(url, e) == PortStep(url, e);
    } else {
      assert forall c :: c in port ==> IsDigit(c);
      assert forall c :: c in url ==> c != '?' && c != '#' by {
        assert forall c :: c in url ==> c in host || c == ':' || c in port;
      }
      FindAbsent(url, {'?', '#'});
    }
    assert HostStart(url) == Some((0, DigitsValue(port) != 0));
    assert url[0..] == url;
    HostPortIn(host, port, DigitsValue(port) != 0);
  }

  /** Scanning past a prefix free of stops. */
  lemma {:induction false} FindPrefix(p: string, t: string, stops: set<char>)
    requires Find(p, stops) == |p|
    ensures Find(p + t, stops) == |p| + Find(t, stops)
    decreases |p|
  {
    if p != [] {
      assert (p + t)[0] == p[0] && (p + t)[1..] == p[1..] + t;
      FindPrefix(p[1..], t, stops);
    } else {
      assert p + t == t;
    }
  }

  /** A host name alone, without a scheme or `//`, has no host. */
  lemma BareHost(host: string)
    requires PlainHost(host)
    ensures UrlHost(host).None?
  {
    assert host[0] in host;
  }

  /** The host name `accounts.google.com` contains no URL delimiter. */
  lemma GoogleIssuerIsPlainHost()
    ensures PlainHost(GoogleIssuer)
  {
  }

  /** The bare host name fails the issuer check as written. */
  lemma BareIssuerRejected()
    ensures IsValidIssuerAsWritten(IssuedBy(GoogleIssuer)) == Ok(false)
  {
    GoogleIssuerIsPlainHost();
    BareHost(GoogleIssuer);
  }

  /** The issuer with a port and no scheme is read as `host:port` and passes as written. */
  lemma IssuerWithPortAccepted()
    ensures IsValidIssuerAsWritten(IssuedBy(GoogleIssuer + ":443")) == Ok(true)
  {
    var iss := GoogleIssuer + ":443";
    assert UrlHost(iss) == Some(GoogleIssuer) by {
      GoogleIssuerIsPlainHost();
      HttpsPort();
      assert iss == GoogleIssuer + ":" + "443";
      HostPort(GoogleIssuer, "443");
    }
    assert Claim(IssuedBy(iss), "iss") == JStr(iss);
  }

  /** `443` is a port. */
  lemma HttpsPort()
    ensures IsPort("443")
  {
    assert "443"[..2] == "44" && "44"[..1] == "4" && "4"[..0] == "";
  }

  /** An issuer URL whose port is not a number is rejected by `parse_url`, so by both checks. */
  lemma NonNumericPortRejected()
    ensures IsValidIssuerAsWritten(IssuedBy(GoogleIssuerUrl + ":abc")) == Ok(false)
    ensures IsValidIssuer(IssuedBy(GoogleIssuerUrl + ":abc")) == Ok(false)
  {
    GoogleIssuerIsPlainHost();
    assert !PortOk("abc");
    SchemeHostBadPort("https", GoogleIssuer, "abc");
    assert GoogleIssuerUrl + ":abc" == "https" + "://" + GoogleIssuer + ":" + "abc";
    assert GoogleIssuerUrl + ":abc" != GoogleIssuer by {
      assert |GoogleIssuerUrl + ":abc"| != |GoogleIssuer|;
    }
  }

  /** Both documented issuer forms pass the corrected check. */
  lemma BothIssuerFormsAccepted()
    ensures IsValidIssuer(IssuedBy(GoogleIssuer)) == Ok(true)
    ensures IsValidIssuer(IssuedBy(GoogleIssuerUrl)) == Ok(true)
  {
    GoogleIssuerIsPlainHost();
    SchemeHost("https", GoogleIssuer);
  }

  /** The two issuer checks differ only on the bare host name. */
  lemma IssuerChecksAgree(payload: Json)
    requires Claim(payload, "iss") != JStr(GoogleIssuer)
    ensures IsValidIssuerAsWritten(payload) == IsValidIssuer(payload)
  {
  }

  /**
   * `isValidAudience($googleClientId)` as written: a truthy client id is
   * called as a function, which does not exist.
   */
  function IsValidAudienceAsWritten(payload: Json, clientId: Option<string>): (r: Result<bool>)
    ensures r.Err? <==> clientId.Some? && StrTruthy(clientId.value)
    ensures r.Err? ==> r.error == UndefinedFunction
    ensures r.Ok? ==> r.value
  {
    if clientId.Some? && StrTruthy(clientId.value) then Err(UndefinedFunction) else Ok(true)
  }

  /**
   * `isValidAudience($googleClientId)` as evidently intended: the `aud`
   * claim must be the client id, when a client id is configured.
   */
  function IsValidAudience(payload: Json, clientId: Option<string>): (ok: bool)
    ensures clientId.None? || !StrTruthy(clientId.value) ==> ok
    ensures clientId.Some? && StrTruthy(clientId.value) ==> (ok <==> Claim(payload, "aud") == JStr(clientId.value))
  {
    !(clientId.Some? && StrTruthy(clientId.value) && Claim(payload, "aud") != JStr(clientId.value))
  }

  /** With a client id configured, the written check throws even for the matching audience. */
  lemma AudienceCheckThrows(id: string)
    requires StrTruthy(id)
    ensures var payload := JObj(map["aud" := JStr(id)]);
      IsValidAudienceAsWritten(payload, Some(id)) == Err(UndefinedFunction) && IsValidAudience(payload, Some(id))
  {
  }

  /** Without a client id both audience checks pass. */
  lemma AudienceChecksAgree(payload: Json, clientId: Option<string>)
    requires clientId.None? || !StrTruthy(clientId.value)
    ensures IsValidAudienceAsWritten(payload, clientId) == Ok(IsValidAudience(payload, clientId))
  {
  }

  /**
   * `isValidExpiration()` at time `now`: a numeric `exp` before `now` has
   * expired. PHP's loose `<` makes a missing claim (null) expired and `true`
   * never expired; `false` is expired and then rejected by `date()`.
   */
  function IsValidExpiration(payload: Json, now: int): (r: Result<bool>)
    requires now > 0
    ensures Claim(payload, "exp").JNum? ==> r == Ok(Claim(payload, "exp").n >= now)
    ensures Claim(payload, "exp") == JNull ==> r == Ok(false)
    ensures r.Err? ==> r.error == TypeMismatch
    ensures r == Ok(true) ==> Claim(payload, "exp").JNum? || Claim(payload, "exp") == JBool(true)
  {
    match Claim(payload, "exp")
    case JNum(n) => Ok(n >= now)
    case JNull => Ok(false)
    case JBool(b) => if b then Ok(true) else Err(TypeMismatch)
    case _ => Err(TypeMismatch)
  }

  /** A numeric expiry is valid exactly until it passes. */
  lemma ExpirationMonotone(payload: Json, now: int, later: int)
    requires 0 < now <= later
    requires IsValidExpiration(payload, later) == Ok(true) && Claim(payload, "exp").JNum?
    ensures IsValidExpiration(payload, now) == Ok(true)
  {
  }

  /**
   * `isValid($googleClientId)` as written: issuer, then audience, then the
   * signature, each consulted only if the previous passed. Expiry is not
   * part of it.
   */
  function IsValidAsWritten(t: Token, clientId: Option<string>, signature: Result<bool>): (r: Result<bool>)
    ensures IsValidIssuerAsWritten(t.payload) == Ok(false) ==> r == Ok(false)
    ensures r == Ok(true) ==> IsValidIssuerAsWritten(t.payload) == Ok(true) && signature == Ok(true)
    ensures r == Ok(true) ==> clientId.None? || !StrTruthy(clientId.value)
  {
    match IsValidIssuerAsWritten(t.payload)
    case Err(e) => Err(e)
    case Ok(false) => Ok(false)
    case Ok(true) =>
      match IsValidAudienceAsWritten(t.payload, clientId)
      case Err(e) => Err(e)
      case Ok(false) => Ok(false)
      case Ok(true) => signature
  }

  /**
   * `isValid($googleClientId)` with the corrected issuer and audience checks.
   */
  function IsValid(t: Token, clientId: Option<string>, signature: Result<bool>): (r: Result<bool>)
    ensures IsValidIssuer(t.payload) == Ok(false) ==> r == Ok(false)
    ensures IsValidIssuer(t.payload).Ok? && !IsValidAudience(t.payload, clientId) ==> r == Ok(false)
    ensures r == Ok(true) <==> IsValidIssuer(t.payload) == Ok(true) && IsValidAudience(t.payload, clientId) && signature == Ok(true)
  {
    match IsValidIssuer(t.payload)
    case Err(e) => Err(e)
    case Ok(false) => Ok(false)
    case Ok(true) => if IsValidAudience(t.payload, clientId) then signature else Ok(false)
  }

  /** A token that fails the issuer check is invalid whatever the signature check would say. */
  lemma IssuerFailureSkipsSignature(t: Token, clientId: Option<string>, s1: Result<bool>, s2: Result<bool>)
    requires IsValidIssuer(t.payload) == Ok(false)
    ensures IsValid(t, clientId, s1) == IsValid(t, clientId, s2) == Ok(false)
  {
  }

  /** `strtr($s, '-_', '+/')` on one character. */
  function Translate(c: char): char {
    if c == '-' then '+' else if c == '_' then '/' else c
  }

  /** `strtr($s, '-_', '+/')`. */
  function Strtr(s: string): (r: string)
    ensures |r| == |s|
  {
    seq(|s|, i requires 0 <= i < |s| => Translate(s[i]))
  }

  /** `str_repeat('=', $n)`. */
  function Padding(n: nat): (r: string)
    ensures |r| == n
  {
    seq(n, _ => '=')
  }

  /** The translation keeps every character's encoded width. */
  lemma {:induction false} StrtrKeepsByteLength(s: string)
    ensures ByteLength(Strtr(s)) == ByteLength(s)
    decreases |s|
  {
    if s != [] {
      StrtrKeepsByteLength(s[1..]);
      assert Strtr(s)[1..] == Strtr(s[1..]);
    }
  }

  /** Appending `n` padding characters adds `n` bytes after the unchanged input. */
  lemma PaddingAppended(input: string, n: nat)
    ensures ByteLength(input + Padding(n)) == ByteLength(input) + n
    ensures (input + Padding(n))[..|input|] == input
    ensures forall i :: |input| <= i < |input| + n ==> (input + Padding(n))[i] == '='
  {
    ByteLengthAppend(input, Padding(n));
  }

  /** How many bytes round `b` up to a multiple of four. */
  function PadCount(b: nat): (n: nat)
    ensures n < 4 && (b + n) % 4 == 0
    ensures n == 0 <==> b % 4 == 0
  {
    (4 - b % 4) % 4
  }

  /** The input followed by `=` up to a multiple of four bytes. */
  function PadToQuad(input: string): (p: string)
    ensures |p| == |input| + PadCount(ByteLength(input))
    ensures p[..|input|] == input
    ensures forall i :: |input| <= i < |p| ==> p[i] == '='
    ensures ByteLength(p) % 4 == 0
  {
    var n := PadCount(ByteLength(input));
    PaddingAppended(input, n);
    input + Padding(n)
  }

  /**
   * `convertBase64UrlToBase64($input)` (section 5 of RFC 4648 to section 4):
   * `=` padding up to a multiple of four bytes, then `-` and `_` replaced by
   * `+` and `/`.
   */
  function ConvertBase64UrlToBase64(input: string): (r: string)
    ensures var pad := PadCount(ByteLength(input));
      && |r| == |input| + pad
      && (forall i :: 0 <= i < |input| ==> r[i] == Translate(input[i]))
      && (forall i :: |input| <= i < |r| ==> r[i] == '=')
    ensures ByteLength(r) % 4 == 0
    ensures forall i :: 0 <= i < |r| ==> r[i] != '-' && r[i] != '_'
  {
    var padded := PadToQuad(input);
    StrtrKeepsByteLength(padded);
    assert forall i :: 0 <= i < |input| ==> padded[i] == padded[..|input|][i];
    Strtr(padded)
  }

  /** Standard base64 that is already padded passes through unchanged. */
  lemma ConvertKeepsStandard(input: string)
    requires ByteLength(input) % 4 == 0
    requires forall i :: 0 <= i < |input| ==> input[i] != '-' && input[i] != '_'
    ensures ConvertBase64UrlToBase64(input) == input
  {
  }

  /** Converting twice is converting once. */
  lemma ConvertIdempotent(input: string)
    ensures ConvertBase64UrlToBase64(ConvertBase64UrlToBase64(input)) == ConvertBase64UrlToBase64(input)
  {
    ConvertKeepsStandard(ConvertBase64UrlToBase64(input));
  }
}
