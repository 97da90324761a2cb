/** Cookie pairs and the `Cookie` request header (section 4.2.1 of RFC 6265). */
module Cookies {
  import opened Percent
  import opened Text
  import opened Wrappers

  /** A JavaScript number, as far as `Max-Age` looks at it. */
  datatype Number = Finite(value: real) | NotFinite

  datatype SameSite = Strict | Lax | Unrestricted

  /** `expires` is the date already formatted. */
  datatype Options = Options(
    maxAge: Option<Number>,
    domain: Option<string>,
    path: Option<string>,
    expires: Option<string>,
    httpOnly: bool,
    secure: bool,
    sameSite: Option<SameSite>)

  const NO_OPTIONS := Options(None, None, None, None, false, false, None)

  datatype Error =
    | InvalidName(name: string)
    | InvalidMaxAge
    | InvalidDomain(domain: string)
    | InvalidPath(path: string)

  datatype Cookie = Cookie(name: string, value: string)

  // ---- Serializing ----

  /** A token character. */
  predicate NameChar(c: char) {
    || IsAlphanumeric(c) || c == '!' || '#' <= c <= '\'' || c == '*' || c == '+' || c == '-' || c == '.'
    || '^' <= c <= '`' || c == '|' || c == '~'
  }

  predicate ValidName(name: string) {
    name != "" && forall i | 0 <= i < |name| :: NameChar(name[i])
  }

  predicate ValidLabel(part: string) {
    && 1 <= |part| <= 63
    && IsAlphanumeric(part[0]) && IsAlphanumeric(part[|part| - 1])
    && forall i | 0 <= i < |part| :: IsAlphanumeric(part[i]) || part[i] == '-'
  }

  function Undotted(domain: string): string {
    if domain != "" && domain[0] == '.' then domain[1..] else domain
  }

  /** Labels separated by dots, after one optional leading dot. */
  predicate ValidDomain(domain: string) {
    var labels := Split(Undotted(domain), '.');
    forall i | 0 <= i < |labels| :: ValidLabel(labels[i])
  }

  predicate ValidPath(path: string) {
    forall i | 0 <= i < |path| :: ' ' <= path[i] <= ':' || '=' <= path[i] <= '~'
  }

  function Pair(cookie: Cookie): string {
    cookie.name + "=" + Encode(cookie.value)
  }

  function Truncated(x: real): int {
    if x < 0.0 then -(-x).Floor else x.Floor
  }

  function Digits(n: nat): string {
    if n < 10 then ['0' + n as char] else Digits(n / 10) + ['0' + (n % 10) as char]
  }

  function IntegerText(n: int): string {
    if n < 0 then "-" + Digits(-n) else Digits(n)
  }

  function Label(sameSite: SameSite): string {
    match sameSite
    case Strict => "Strict"
    case Lax => "Lax"
    case Unrestricted => "None"
  }

  /** The first thing `serializeCookie` objects to. */
  function Objection(name: string, o: Options): Option<Error> {
    if !ValidName(name) then Some(InvalidName(name))
    else if o.maxAge == Some(NotFinite) then Some(InvalidMaxAge)
    else if o.domain.Some? && !ValidDomain(o.domain.value) then Some(InvalidDomain(o.domain.value))
    else if o.path.Some? && !ValidPath(o.path.value) then Some(InvalidPath(o.path.value))
    else None
  }

  function MaxAge(maxAge: Option<Number>): seq<string> {
    match maxAge
    case Some(Finite(value)) => ["Max-Age=" + IntegerText(Truncated(value))]
    case _ => []
  }

  function Attribute(key: string, value: Option<string>): seq<string> {
    if value.Some? then [key + "=" + value.value] else []
  }

  function Flag(key: string, on: bool): seq<string> {
    if on then [key] else []
  }

  function SameSiteAttribute(sameSite: Option<SameSite>): seq<string> {
    if sameSite.Some? then ["SameSite=" + Label(sameSite.value)] else []
  }

  /** The pair and the attributes asked for, in the order they are written. */
  function Segments(cookie: Cookie, o: Options): seq<string> {
    [Pair(cookie)] + MaxAge(o.maxAge) + Attribute("Domain", o.domain) + Attribute("Path", o.path)
    + Attribute("Expires", o.expires) + Flag("HttpOnly", o.httpOnly) + Flag("Secure", o.secure)
    + SameSiteAttribute(o.sameSite)
  }

  /** Refuses what the grammar does not allow, and writes the pair and its attributes otherwise. */
  method SerializeCookie(cookie: Cookie, options: Options) returns (result: Result<string, Error>)
    ensures match Objection(cookie.name, options)
      case Some(error) => result == Err(error)
      case None => result == Ok(Join(Segments(cookie, options), "; "))
  {
    if !ValidName(cookie.name) { return Err(InvalidName(cookie.name)); }
    var segments := [cookie.name + "=" + Encode(cookie.value)];
    if options.maxAge == Some(NotFinite) { return Err(InvalidMaxAge); }
    segments := segments + MaxAge(options.maxAge);
    if options.domain.Some? && !ValidDomain(options.domain.value) {
      return Err(InvalidDomain(options.domain.value));
    }
    segments := segments + Attribute("Domain", options.domain);
    if options.path.Some? && !ValidPath(options.path.value) {
      return Err(InvalidPath(options.path.value));
    }
    segments := segments + Attribute("Path", options.path);
    segments := segments + Attribute("Expires", options.expires);
    segments := segments + Flag("HttpOnly", options.httpOnly);
    segments := segments + Flag("Secure", options.secure);
    segments := segments + SameSiteAttribute(options.sameSite);
    return Ok(Join(segments, "; "));
  }

  // ---- Reading a header ----

  /** The value, or the raw text where it is not well-formed percent-encoding. */
  function Decoded(raw: string): string {
    Decode(raw).GetOr(raw)
  }

  function ParsePair(pair: string): Option<Cookie> {
    var eq := IndexOf(pair, '=');
    if eq < 0 || Trim(pair[..eq]) == "" then None
    else Some(Cookie(Trim(pair[..eq]), Decoded(Trim(pair[eq + 1..]))))
  }

  /** A pair of a request header: a name before the first equals sign and some raw text after it, each
      between spaces or none. */
  ghost predicate IsPair(pair: string, name: string, raw: string) {
    && name != ""
    && exists before, after :: && '=' !in before && pair == before + ['='] + after
                               && Pads(before, name) && Pads(after, raw)
  }

  /** What the raw text stands for: what it spells in percent-encoding, or itself if it spells nothing. */
  ghost predicate Means(raw: string, value: string) {
    Spells(raw, value) || (value == raw && forall t :: !Spells(raw, t))
  }

  lemma DecodedExact(raw: string, value: string)
    ensures Decoded(raw) == value <==> Means(raw, value)
  {
    forall t ensures Decode(raw) == Some(t) <==> Spells(raw, t) {
      DecodeExact(raw, t);
    }
  }

  lemma {:induction false} PairRead(pair: string, cookie: Cookie) returns (raw: string)
    requires ParsePair(pair) == Some(cookie)
    ensures IsPair(pair, cookie.name, raw) && Means(raw, cookie.value)
  {
    var eq := IndexOf(pair, '=');
    var before, after := pair[..eq], pair[eq + 1..];
    raw := Trim(after);
    CutAt(pair, eq);
    TrimPads(before);
    TrimPads(after);
    DecodedExact(raw, cookie.value);
    assert pair == before + ['='] + after;
  }

  lemma {:induction false} PairIsRead(pair: string, name: string, raw: string, value: string)
    requires IsPair(pair, name, raw) && Means(raw, value)
    ensures ParsePair(pair) == Some(Cookie(name, value))
  {
    var before, after :| '=' !in before && pair == before + ['='] + after && Pads(before, name) && Pads(after, raw);
    IndexOfIs(before, '=', after);
    assert pair[..|before|] == before && pair[|before| + 1..] == after;
    PadsTrim(before, name);
    PadsTrim(after, raw);
    DecodedExact(raw, value);
  }

  /** A pair is read exactly so, and what does not have this form is skipped. */
  lemma {:induction false} ParsePairExact(pair: string, name: string, value: string)
    ensures ParsePair(pair) == Some(Cookie(name, value)) <==>
              exists raw :: IsPair(pair, name, raw) && Means(raw, value)
  {
    if ParsePair(pair) == Some(Cookie(name, value)) {
      var raw := PairRead(pair, Cookie(name, value));
    }
    if raw :| IsPair(pair, name, raw) && Means(raw, value) {
      PairIsRead(pair, name, raw, value);
    }
  }

  /** The value of the first pair of that name. */
  function Lookup(pairs: seq<string>, name: string): Option<string> {
    if pairs == [] then None
    else match ParsePair(pairs[0])
      case None => Lookup(pairs[1..], name)
      case Some(cookie) => if cookie.name == name then Some(cookie.value) else Lookup(pairs[1..], name)
  }

  ghost predicate Agrees(cookies: map<string, string>, pairs: seq<string>) {
    forall name :: Lookup(pairs, name) == if name in cookies then Some(cookies[name]) else None
  }

  lemma {:induction false} LookupAppend(pairs: seq<string>, pair: string, name: string)
    ensures Lookup(pairs + [pair], name)
         == if Lookup(pairs, name).Some? then Lookup(pairs, name) else Lookup([pair], name)
  {
    if pairs == [] {
      assert pairs + [pair] == [pair];
    } else {
      assert (pairs + [pair])[1..] == pairs[1..] + [pair];
      LookupAppend(pairs[1..], pair, name);
    }
  }

  lemma LookupOne(pair: string, name: string)
    ensures Lookup([pair], name)
         == match ParsePair(pair)
            case None => None
            case Some(cookie) => if cookie.name == name then Some(cookie.value) else None
  {
    assert [pair][1..] == [];
  }

  lemma {:induction false} AgreesAppend(cookies: map<string, string>, pairs: seq<string>, pair: string)
    requires Agrees(cookies, pairs)
    ensures ParsePair(pair).None? ==> Agrees(cookies, pairs + [pair])
    ensures ParsePair(pair).Some? ==> var cookie := ParsePair(pair).value;
      Agrees(if cookie.name in cookies then cookies else cookies[cookie.name := cookie.value], pairs + [pair])
  {
    forall name ensures Lookup(pairs + [pair], name)
      == if Lookup(pairs, name).Some? then Lookup(pairs, name) else Lookup([pair], name)
    {
      LookupAppend(pairs, pair, name);
    }
    forall name { LookupOne(pair, name); }
  }

  /** Never fails; the first pair of a name wins. */
  method ParseCookieHeader(header: string) returns (cookies: map<string, string>)
    ensures Agrees(cookies, Split(header, ';'))
  {
    cookies := map[];
    var pairs := Split(header, ';');
    if header == "" {
      LookupNothing();
      return;
    }
    for i := 0 to |pairs|
      invariant Agrees(cookies, pairs[..i])
    {
      var pair := pairs[i];
      assert pairs[..i + 1] == pairs[..i] + [pair];
      AgreesAppend(cookies, pairs[..i], pair);
      var eq := IndexOf(pair, '=');
      if eq < 0 { continue; }
      var name := Trim(pair[..eq]);
      if name == "" { continue; }
      if name in cookies { continue; }
      var rawValue := Trim(pair[eq + 1..]);
      var value := Decode(rawValue).GetOr(rawValue);
      cookies := cookies[name := value];
    }
    assert pairs[..|pairs|] == pairs;
  }

  lemma LookupNothing()
    ensures Split("", ';') == [""] && Agrees(map[], [""])
  {
    forall name { LookupOne("", name); }
  }

  // ---- Round trip ----

  function Serialized(cookies: seq<Cookie>): seq<string> {
    seq(|cookies|, i requires 0 <= i < |cookies| => Pair(cookies[i]))
  }

  /** Without attributes a serialized cookie is just its pair, so the lists joined below are lists of
      serialized cookies. */
  lemma {:induction false} PlainCookieIsPair(cookie: Cookie)
    ensures Join(Segments(cookie, NO_OPTIONS), "; ") == Pair(cookie)
    ensures Objection(cookie.name, NO_OPTIONS) == None <==> ValidName(cookie.name)
  {
    assert Segments(cookie, NO_OPTIONS) == [Pair(cookie)];
  }

  /** The header a client builds by serializing each cookie without attributes; `None` when a name is
      invalid. */
  method Header(cookies: seq<Cookie>) returns (header: Option<string>)
    ensures header.Some? <==> forall cookie | cookie in cookies :: ValidName(cookie.name)
    ensures header.Some? ==> header.value == Join(Serialized(cookies), "; ")
    ensures header.Some? ==>
              forall name :: Lookup(Split(header.value, ';'), name) == FirstNamed(cookies, name)
  {
    var pairs: seq<string> := [];
    for i := 0 to |cookies|
      invariant pairs == Serialized(cookies[..i])
      invariant forall j | 0 <= j < i :: ValidName(cookies[j].name)
    {
      PlainCookieIsPair(cookies[i]);
      var pair := SerializeCookie(cookies[i], NO_OPTIONS);
      if pair.Err? {
        assert cookies[i] in cookies;
        return None;
      }
      assert Serialized(cookies[..i + 1]) == Serialized(cookies[..i]) + [Pair(cookies[i])];
      pairs := pairs + [pair.value];
    }
    assert cookies[..|cookies|] == cookies;
    forall name { HeaderRoundTrip(cookies, name); }
    return Some(Join(pairs, "; "));
  }

  /** The value of the first cookie of that name. */
  function FirstNamed(cookies: seq<Cookie>, name: string): Option<string> {
    if cookies == [] then None
    else if cookies[0].name == name then Some(cookies[0].value)
    else FirstNamed(cookies[1..], name)
  }

  lemma {:induction false} TrimNothing(s: string)
    requires forall i | 0 <= i < |s| :: !IsSpace(s[i])
    ensures Trim(s) == s
  {
  }

  lemma {:induction false} IndexOfIs(s: string, c: char, rest: string)
    requires c !in s
    ensures IndexOf(s + [c] + rest, c) == |s|
  {
    if s == "" {
      assert ("" + [c] + rest)[0] == c;
    } else {
      assert (s + [c] + rest)[1..] == s[1..] + [c] + rest;
      IndexOfIs(s[1..], c, rest);
    }
  }

  lemma {:induction false} PairParses(name: string, encoded: string, value: string)
    requires ValidName(name) && AllCookieOctets(encoded) && Decode(encoded) == Some(value)
    ensures ParsePair(name + "=" + encoded) == Some(Cookie(name, value))
  {
    var pair := name + ['='] + encoded;
    assert '=' !in name;
    IndexOfIs(name, '=', encoded);
    assert pair[..|name|] == name && pair[|name| + 1..] == encoded;
    TrimNothing(name);
    TrimNothing(encoded);
  }

  lemma {:induction false} PairLacksSemicolon(name: string, encoded: string)
    requires ValidName(name) && AllCookieOctets(encoded)
    ensures ';' !in name + "=" + encoded
  {
  }

  lemma {:induction false} PairRoundTrip(cookie: Cookie)
    requires ValidName(cookie.name)
    ensures ParsePair(Pair(cookie)) == Some(cookie) && ';' !in Pair(cookie)
  {
    EncodedIsCookieValue(cookie.value);
    RoundTrip(cookie.value);
    PairParses(cookie.name, Encode(cookie.value), cookie.value);
    PairLacksSemicolon(cookie.name, Encode(cookie.value));
  }

  /** The space after a semicolon does not matter. */
  lemma {:induction false} LeadingSpace(pair: string)
    ensures ParsePair(" " + pair) == ParsePair(pair)
  {
    var eq := IndexOf(pair, '=');
    assert (" " + pair)[1..] == pair;
    if eq >= 0 {
      assert (" " + pair)[..eq + 1] == " " + pair[..eq];
      assert (" " + pair[..eq])[1..] == pair[..eq];
      assert (" " + pair)[eq + 2..] == pair[eq + 1..];
    }
  }

  lemma {:induction false} SplitSpace(s: string)
    ensures var pieces := Split(s, ';');
      Split(" " + s, ';') == [" " + pieces[0]] + pieces[1..]
  {
    assert (" " + s)[1..] == s;
    var i := IndexOf(s, ';');
    if i >= 0 {
      assert (" " + s)[..i + 1] == " " + s[..i] && (" " + s)[i + 2..] == s[i + 1..];
    }
  }

  lemma {:induction false} SplitLeadingSpace(s: string, name: string)
    ensures Lookup(Split(" " + s, ';'), name) == Lookup(Split(s, ';'), name)
  {
    SplitSpace(s);
    LeadingSpace(Split(s, ';')[0]);
  }

  lemma {:induction false} LookupHeader(pair: string, cookie: Cookie, tail: string, name: string)
    requires ParsePair(pair) == Some(cookie) && ';' !in pair
    ensures Lookup(Split(pair + "; " + tail, ';'), name)
         == if cookie.name == name then Some(cookie.value) else Lookup(Split(tail, ';'), name)
  {
    assert pair + "; " + tail == pair + [';'] + (" " + tail);
    SplitFirst(pair, ';', " " + tail);
    SplitLeadingSpace(tail, name);
    assert ([pair] + Split(" " + tail, ';'))[1..] == Split(" " + tail, ';');
  }

  /** A header joined from serialized cookies reads back as the first value given for each name. */
  lemma {:induction false} HeaderRoundTrip(cookies: seq<Cookie>, name: string)
    requires forall cookie | cookie in cookies :: ValidName(cookie.name)
    ensures Lookup(Split(Join(Serialized(cookies), "; "), ';'), name) == FirstNamed(cookies, name)
  {
    if cookies == [] {
      LookupNothing();
      assert Agrees(map[], [""]);
    } else if |cookies| == 1 {
      PairRoundTrip(cookies[0]);
      LookupOne(Serialized(cookies)[0], name);
    } else {
      assert Serialized(cookies)[1..] == Serialized(cookies[1..]);
      PairRoundTrip(cookies[0]);
      LookupHeader(Serialized(cookies)[0], cookies[0], Join(Serialized(cookies[1..]), "; "), name);
      HeaderRoundTrip(cookies[1..], name);
    }
  }

  // ---- Nothing can be injected ----

  /** The pieces a `"; "`-joined list splits into at its semicolons. */
  function Spaced(pieces: seq<string>): seq<string>
    requires pieces != []
  {
    seq(|pieces|, i requires 0 <= i < |pieces| => if i == 0 then pieces[0] else " " + pieces[i])
  }

  lemma {:induction false} SplitSpaced(pieces: seq<string>)
    requires pieces != [] && Lacks(pieces, ';')
    ensures Split(Join(pieces, "; "), ';') == Spaced(pieces)
  {
    if |pieces| > 1 {
      SplitSpaced(pieces[1..]);
      SplitPiece(pieces[0], Join(pieces[1..], "; "));
      SpacedFirst(pieces);
    }
  }

  lemma {:induction false} SpacedFirst(pieces: seq<string>)
    requires |pieces| > 1
    ensures Spaced(pieces) == [pieces[0], " " + Spaced(pieces[1..])[0]] + Spaced(pieces[1..])[1..]
  {
  }

  lemma {:induction false} SplitPiece(piece: string, tail: string)
    requires ';' !in piece
    ensures var pieces := Split(tail, ';');
      Split(piece + "; " + tail, ';') == [piece, " " + pieces[0]] + pieces[1..]
  {
    assert piece + "; " + tail == piece + [';'] + (" " + tail);
    SplitFirst(piece, ';', " " + tail);
    SplitSpace(tail);
  }

  lemma {:induction false} DigitsLackSemicolon(n: nat)
    ensures ';' !in Digits(n)
  {
    if n >= 10 {
      DigitsLackSemicolon(n / 10);
    }
  }

  lemma {:induction false} DomainLacksSemicolon(domain: string)
    requires ValidDomain(domain)
    ensures ';' !in domain
  {
    var rest := Undotted(domain);
    JoinSplit(rest, '.');
    forall i | 0 <= i < |Split(rest, '.')| ensures ';' !in Split(rest, '.')[i] {
      assert ValidLabel(Split(rest, '.')[i]);
    }
    JoinLacks(Split(rest, '.'), ".", ';');
    assert domain == rest || domain == "." + rest;
  }

  lemma {:induction false} JoinLacks(pieces: seq<string>, sep: string, c: char)
    requires Lacks(pieces, c) && c !in sep
    ensures c !in Join(pieces, sep)
  {
    if |pieces| > 1 {
      JoinLacks(pieces[1..], sep, c);
    }
  }

  lemma LacksAppend(a: seq<string>, b: seq<string>, c: char)
    requires Lacks(a, c) && Lacks(b, c)
    ensures Lacks(a + b, c)
  {
  }

  lemma {:induction false} SegmentsLackSemicolon(cookie: Cookie, o: Options)
    requires ';' !in Pair(cookie) && o.maxAge != Some(NotFinite)
    requires o.domain.Some? ==> ';' !in o.domain.value
    requires o.path.Some? ==> ';' !in o.path.value
    requires o.expires.Some? ==> ';' !in o.expires.value
    ensures Lacks(Segments(cookie, o), ';')
  {
    if o.maxAge.Some? {
      var n := Truncated(o.maxAge.value.value);
      DigitsLackSemicolon(if n < 0 then -n else n);
    }
    var a, b := [Pair(cookie)] + MaxAge(o.maxAge), Attribute("Domain", o.domain);
    var c, d := Attribute("Path", o.path), Attribute("Expires", o.expires);
    var e, f, g := Flag("HttpOnly", o.httpOnly), Flag("Secure", o.secure), SameSiteAttribute(o.sameSite);
    LacksAppend([Pair(cookie)], MaxAge(o.maxAge), ';');
    LacksAppend(a, b, ';');
    LacksAppend(a + b, c, ';');
    LacksAppend(a + b + c, d, ';');
    LacksAppend(a + b + c + d, e, ';');
    LacksAppend(a + b + c + d + e, f, ';');
    LacksAppend(a + b + c + d + e + f, g, ';');
  }

  /** Whatever the name, value, domain and path hold, an accepted cookie carries its own pair and
      exactly the attributes asked for: none of them can smuggle in another. */
  lemma {:induction false} NothingInjected(cookie: Cookie, o: Options)
    requires Objection(cookie.name, o) == None && (o.expires.Some? ==> ';' !in o.expires.value)
    ensures Split(Join(Segments(cookie, o), "; "), ';') == Spaced(Segments(cookie, o))
  {
    PairRoundTrip(cookie);
    if o.domain.Some? {
      DomainLacksSemicolon(o.domain.value);
    }
    SegmentsLackSemicolon(cookie, o);
    SplitSpaced(Segments(cookie, o));
  }
}
