/** What a `Set-Cookie` value means to its reader: the attributes asked for can be read back, each and
    no other, and what is accepted is exactly what the grammar allows. */
module CookieAttributes {
  import opened Cookies
  import opened Percent
  import opened Text
  import opened Wrappers

  // ---- Reading attributes back ----

  function Unspaced(piece: string): string {
    if piece != "" && piece[0] == ' ' then piece[1..] else piece
  }

  /** The pieces after the first semicolon, each without the space in front of it. */
  function Attributes(cookie: string): seq<string> {
    var pieces := Split(cookie, ';');
    seq(|pieces| - 1, i requires 0 <= i < |pieces| - 1 => Unspaced(pieces[i + 1]))
  }

  /** The value of the first attribute of that name. */
  function ValueOf(attributes: seq<string>, key: string): Option<string> {
    if attributes == [] then None
    else if key + "=" <= attributes[0] then Some(attributes[0][|key| + 1..])
    else ValueOf(attributes[1..], key)
  }

  lemma {:induction false} ValueOfAppend(a: seq<string>, b: seq<string>, key: string)
    ensures ValueOf(a + b, key) == if ValueOf(a, key).Some? then ValueOf(a, key) else ValueOf(b, key)
  {
    if a == [] {
      assert a + b == b;
    } else {
      assert (a + b)[1..] == a[1..] + b;
      ValueOfAppend(a[1..], b, key);
    }
  }

  /** Two attribute names, neither of which can be taken for the other. */
  predicate Apart(a: string, b: string) {
    |a| > 1 && |b| > 1 && (a[0] != b[0] || a[1] != b[1])
  }

  lemma OneAttribute(key: string, value: string, other: string)
    requires |key| > 1 && (key == other || Apart(key, other))
    ensures ValueOf([key + "=" + value], other) == if key == other then Some(value) else None
  {
    var text := key + "=" + value;
    assert text[|key| + 1..] == value;
    assert (other + "=")[0] == other[0] && (other + "=")[1] == other[1];
    assert text[0] == key[0] && text[1] == key[1];
    assert key + "=" <= text;
  }

  lemma OneFlag(flag: string, other: string)
    requires '=' !in flag
    ensures ValueOf([flag], other) == None
  {
    assert (other + "=")[|other|] == '=';
  }

  lemma {:induction false} AttributeRead(key: string, value: Option<string>, other: string)
    requires |key| > 1 && (key == other || Apart(key, other))
    ensures ValueOf(Attribute(key, value), other) == if key == other then value else None
  {
    if value.Some? {
      OneAttribute(key, value.value, other);
      assert Attribute(key, value) == [key + "=" + value.value];
    }
  }

  lemma {:induction false} FlagRead(flag: string, on: bool, other: string)
    requires '=' !in flag
    ensures ValueOf(Flag(flag, on), other) == None
  {
    if on { OneFlag(flag, other); }
  }

  function MaxAgeText(maxAge: Option<Number>): Option<string> {
    match maxAge
    case Some(Finite(value)) => Some(IntegerText(Truncated(value)))
    case _ => None
  }

  function SameSiteText(sameSite: Option<SameSite>): Option<string> {
    match sameSite
    case None => None
    case Some(Strict) => Some("Strict")
    case Some(Lax) => Some("Lax")
    case Some(Unrestricted) => Some("None")
  }

  /** The value the options give an attribute of that name. */
  function Asked(o: Options, key: string): Option<string> {
    if key == "Max-Age" then MaxAgeText(o.maxAge)
    else if key == "Domain" then o.domain
    else if key == "Path" then o.path
    else if key == "Expires" then o.expires
    else if key == "SameSite" then SameSiteText(o.sameSite)
    else None
  }

  predicate IsKey(key: string) {
    key == "Max-Age" || key == "Domain" || key == "Path" || key == "Expires" || key == "SameSite"
  }

  lemma SameSiteIs(sameSite: Option<SameSite>)
    ensures SameSiteAttribute(sameSite) == Attribute("SameSite", SameSiteText(sameSite))
  {
    assert "SameSite" + "=" == "SameSite=";
  }

  lemma MaxAgeIs(maxAge: Option<Number>)
    ensures MaxAge(maxAge) == Attribute("Max-Age", MaxAgeText(maxAge))
  {
    assert "Max-Age" + "=" == "Max-Age=";
  }

  /** The attributes with a value, the flags, and the last attribute. */
  function Valued(o: Options): seq<string> {
    Attribute("Max-Age", MaxAgeText(o.maxAge)) + Attribute("Domain", o.domain) + Attribute("Path", o.path)
    + Attribute("Expires", o.expires)
  }

  function Flags(o: Options): seq<string> {
    Flag("HttpOnly", o.httpOnly) + Flag("Secure", o.secure)
  }

  function Last(o: Options): seq<string> {
    Attribute("SameSite", SameSiteText(o.sameSite))
  }

  lemma SegmentsAre(cookie: Cookie, o: Options)
    ensures Segments(cookie, o) == [Pair(cookie)] + (Valued(o) + Flags(o) + Last(o))
    ensures Segments(cookie, o)[1..] == Valued(o) + Flags(o) + Last(o)
  {
    MaxAgeIs(o.maxAge);
    SameSiteIs(o.sameSite);
    Regroup([Pair(cookie)], MaxAge(o.maxAge), Attribute("Domain", o.domain), Attribute("Path", o.path),
            Attribute("Expires", o.expires), Flag("HttpOnly", o.httpOnly), Flag("Secure", o.secure), Last(o));
    FirstDropped(Pair(cookie), Valued(o) + Flags(o) + Last(o));
  }

  lemma Regroup(p: seq<string>, a: seq<string>, b: seq<string>, c: seq<string>, d: seq<string>, e: seq<string>,
                f: seq<string>, g: seq<string>)
    ensures p + a + b + c + d + e + f + g == p + (a + b + c + d + (e + f) + g)
  {
  }

  lemma FirstDropped(first: string, rest: seq<string>)
    ensures ([first] + rest)[1..] == rest
  {
  }

  lemma {:induction false} ValuedRead(o: Options, key: string)
    requires IsKey(key)
    ensures ValueOf(Valued(o), key) == if key == "SameSite" then None else Asked(o, key)
  {
    var a, b := Attribute("Max-Age", MaxAgeText(o.maxAge)), Attribute("Domain", o.domain);
    var c, d := Attribute("Path", o.path), Attribute("Expires", o.expires);
    ValueOfAppend(a, b, key);
    ValueOfAppend(a + b, c, key);
    ValueOfAppend(a + b + c, d, key);
    AttributeRead("Max-Age", MaxAgeText(o.maxAge), key);
    AttributeRead("Domain", o.domain, key);
    AttributeRead("Path", o.path, key);
    AttributeRead("Expires", o.expires, key);
  }

  lemma {:induction false} SegmentsRead(cookie: Cookie, o: Options, key: string)
    requires IsKey(key)
    ensures ValueOf(Segments(cookie, o)[1..], key) == Asked(o, key)
  {
    SegmentsAre(cookie, o);
    ValuedRead(o, key);
    ValueOfAppend(Valued(o), Flags(o), key);
    ValueOfAppend(Valued(o) + Flags(o), Last(o), key);
    ValueOfAppend(Flag("HttpOnly", o.httpOnly), Flag("Secure", o.secure), key);
    FlagRead("HttpOnly", o.httpOnly, key);
    FlagRead("Secure", o.secure, key);
    AttributeRead("SameSite", SameSiteText(o.sameSite), key);
  }

  lemma AttributeIsNoFlag(key: string, value: Option<string>, flag: string)
    requires '=' !in flag
    ensures flag !in Attribute(key, value)
  {
    if value.Some? { assert (key + "=" + value.value)[|key|] == '='; }
  }

  lemma {:induction false} SegmentFlags(cookie: Cookie, o: Options)
    ensures "HttpOnly" in Segments(cookie, o)[1..] <==> o.httpOnly
    ensures "Secure" in Segments(cookie, o)[1..] <==> o.secure
  {
    SegmentsAre(cookie, o);
    forall flag | flag == "HttpOnly" || flag == "Secure" ensures flag !in Valued(o) && flag !in Last(o) {
      AttributeIsNoFlag("Max-Age", MaxAgeText(o.maxAge), flag);
      AttributeIsNoFlag("Domain", o.domain, flag);
      AttributeIsNoFlag("Path", o.path, flag);
      AttributeIsNoFlag("Expires", o.expires, flag);
      AttributeIsNoFlag("SameSite", SameSiteText(o.sameSite), flag);
    }
    assert "HttpOnly" != "Secure";
  }

  function Bit(b: bool): nat {
    if b then 1 else 0
  }

  lemma SegmentCount(cookie: Cookie, o: Options)
    requires o.maxAge != Some(NotFinite)
    ensures |Segments(cookie, o)|
         == 1 + Bit(o.maxAge.Some?) + Bit(o.domain.Some?) + Bit(o.path.Some?) + Bit(o.expires.Some?)
            + Bit(o.httpOnly) + Bit(o.secure) + Bit(o.sameSite.Some?)
  {
  }

  lemma SegmentsAreAttributes(cookie: Cookie, o: Options)
    requires Objection(cookie.name, o) == None && (o.expires.Some? ==> ';' !in o.expires.value)
    ensures Attributes(Join(Segments(cookie, o), "; ")) == Segments(cookie, o)[1..]
    ensures Split(Join(Segments(cookie, o), "; "), ';')[0] == Pair(cookie)
  {
    NothingInjected(cookie, o);
    SpacedRead(Join(Segments(cookie, o), "; "), Segments(cookie, o));
  }

  lemma {:induction false} SpacedRead(text: string, segments: seq<string>)
    requires segments != [] && Split(text, ';') == Spaced(segments)
    ensures Attributes(text) == segments[1..] && Split(text, ';')[0] == segments[0]
  {
    forall i | 0 <= i < |segments| - 1 ensures Unspaced(Spaced(segments)[i + 1]) == segments[1..][i] {
      assert (" " + segments[i + 1])[1..] == segments[i + 1];
    }
  }

  /** The reader of an accepted cookie gets back the name and value, each attribute's own value, the two
      flags as they were set, and nothing more. */
  lemma {:induction false} CookieReadsBack(cookie: Cookie, o: Options)
    requires Objection(cookie.name, o) == None && (o.expires.Some? ==> ';' !in o.expires.value)
    ensures ReadsBack(Join(Segments(cookie, o), "; "), cookie, o)
  {
    PairRoundTrip(cookie);
    SegmentsAreAttributes(cookie, o);
    SegmentFlags(cookie, o);
    SegmentCount(cookie, o);
    SegmentsRead(cookie, o, "Max-Age");
    SegmentsRead(cookie, o, "Domain");
    SegmentsRead(cookie, o, "Path");
    SegmentsRead(cookie, o, "Expires");
    SegmentsRead(cookie, o, "SameSite");
  }

  predicate ReadsBack(text: string, cookie: Cookie, o: Options) {
    var read := Attributes(text);
    && ParsePair(Split(text, ';')[0]) == Some(cookie)
    && ValueOf(read, "Max-Age") == MaxAgeText(o.maxAge)
    && ValueOf(read, "Domain") == o.domain
    && ValueOf(read, "Path") == o.path
    && ValueOf(read, "Expires") == o.expires
    && ValueOf(read, "SameSite") == SameSiteText(o.sameSite)
    && ("HttpOnly" in read <==> o.httpOnly)
    && ("Secure" in read <==> o.secure)
    && |read| == Bit(o.maxAge.Some?) + Bit(o.domain.Some?) + Bit(o.path.Some?) + Bit(o.expires.Some?)
                 + Bit(o.httpOnly) + Bit(o.secure) + Bit(o.sameSite.Some?)
  }

  // ---- Numbers ----

  /** What a decimal text says. */
  function Number(text: string): int {
    if text == "" then 0
    else 10 * Number(text[..|text| - 1]) + text[|text| - 1] as int - '0' as int
  }

  lemma {:induction false} DigitsRead(n: nat)
    ensures Number(Digits(n)) == n && forall i | 0 <= i < |Digits(n)| :: '0' <= Digits(n)[i] <= '9'
  {
    if n >= 10 {
      DigitsRead(n / 10);
      assert Digits(n)[..|Digits(n)| - 1] == Digits(n / 10);
    } else {
      assert Digits(n)[..0] == "";
    }
  }

  /** A Max-Age is written as the whole number next to it on the side of zero. */
  lemma {:induction false} MaxAgeExact(x: real)
    ensures var n := Truncated(x);
      && (if x < 0.0 then (n - 1) as real < x <= n as real <= 0.0 else 0.0 <= n as real <= x < (n + 1) as real)
      && (if n < 0 then IntegerText(n)[0] == '-' && -Number(IntegerText(n)[1..]) == n
          else Number(IntegerText(n)) == n)
  {
    var n := Truncated(x);
    DigitsRead(if n < 0 then -n else n);
    assert n < 0 ==> IntegerText(n)[1..] == Digits(-n);
  }

  // ---- The grammar ----

  const SEPARATORS := "()<>@,;:\\\"/[]?={}"

  /** A name is made of token characters, section 2.2 of RFC 2616: visible ASCII but the separators. */
  lemma NameCharExact(c: char)
    ensures NameChar(c) <==> 0x21 <= c as int < 0x7F && c !in SEPARATORS
  {
  }

  /** A path holds every printable ASCII character but the semicolon and the less-than sign. */
  lemma PathExact(path: string)
    ensures ValidPath(path) <==>
              forall i | 0 <= i < |path| :: 0x20 <= path[i] as int < 0x7F && path[i] != ';' && path[i] != '<'
  {
  }

  predicate LabelChar(c: char) {
    IsAlphanumeric(c) || c == '-'
  }

  /** A label: one alphanumeric character, or two with at most 61 characters in between. */
  ghost predicate IsLabel(part: string) {
    || (exists a :: IsAlphanumeric(a) && part == [a])
    || (exists a, middle, z :: IsLong(part, a, middle, z))
  }

  predicate IsLong(part: string, a: char, middle: string, z: char) {
    && IsAlphanumeric(a) && IsAlphanumeric(z) && part == [a] + middle + [z]
    && |middle| <= 61 && forall i | 0 <= i < |middle| :: LabelChar(middle[i])
  }

  lemma ValidIsLabel(part: string)
    requires ValidLabel(part)
    ensures IsLabel(part)
  {
    var n := |part|;
    if n == 1 {
      assert part == [part[0]];
    } else {
      var middle := part[1..n - 1];
      assert part == [part[0]] + middle + [part[n - 1]];
      forall i | 0 <= i < |middle| ensures LabelChar(middle[i]) {
        assert middle[i] == part[i + 1];
      }
      assert IsLong(part, part[0], middle, part[n - 1]);
    }
  }

  lemma LabelIsValid(part: string)
    requires IsLabel(part)
    ensures ValidLabel(part)
  {
  }

  lemma LabelExact(part: string)
    ensures ValidLabel(part) <==> IsLabel(part)
  {
    if ValidLabel(part) { ValidIsLabel(part); }
    if IsLabel(part) { LabelIsValid(part); }
  }

  /** A domain: labels with a dot between any two, and possibly one more in front. */
  ghost predicate IsDomain(domain: string) {
    exists labels: seq<string> :: && labels != [] && (forall part <- labels :: IsLabel(part))
                                  && (domain == Join(labels, ".") || domain == "." + Join(labels, "."))
  }

  lemma {:induction false} ValidIsDomain(domain: string)
    requires ValidDomain(domain)
    ensures IsDomain(domain)
  {
    var labels := Split(Undotted(domain), '.');
    JoinSplit(Undotted(domain), '.');
    forall i | 0 <= i < |labels| ensures IsLabel(labels[i]) {
      assert ValidLabel(labels[i]);
      LabelExact(labels[i]);
    }
    assert domain == Undotted(domain) || domain == "." + Undotted(domain);
  }

  lemma {:induction false} LabelsAreValid(labels: seq<string>)
    requires labels != [] && forall part <- labels :: IsLabel(part)
    ensures Split(Join(labels, "."), '.') == labels && forall i | 0 <= i < |labels| :: ValidLabel(labels[i])
  {
    forall i | 0 <= i < |labels| ensures ValidLabel(labels[i]) && '.' !in labels[i] {
      LabelExact(labels[i]);
    }
    SplitJoin(labels, '.');
  }

  lemma {:induction false} DomainIsValid(domain: string)
    requires IsDomain(domain)
    ensures ValidDomain(domain)
  {
    var labels: seq<string> :| && labels != [] && (forall part <- labels :: IsLabel(part))
                               && (domain == Join(labels, ".") || domain == "." + Join(labels, "."));
    LabelsAreValid(labels);
    FirstLabel(labels);
    assert Undotted(domain) == Join(labels, ".");
  }

  /** The domains accepted are exactly those of the pattern. */
  lemma {:induction false} DomainExact(domain: string)
    ensures ValidDomain(domain) <==> IsDomain(domain)
  {
    if ValidDomain(domain) {
      ValidIsDomain(domain);
    }
    if IsDomain(domain) {
      DomainIsValid(domain);
    }
  }

  lemma {:induction false} FirstLabel(labels: seq<string>)
    requires labels != [] && ValidLabel(labels[0])
    ensures Join(labels, ".") != "" && Join(labels, ".")[0] == labels[0][0] != '.'
  {
  }

  /** Which error a refused cookie gets: its own field is at fault and every field looked at before is
      fine. */
  predicate AtFault(error: Error, name: string, o: Options) {
    var maxAge := o.maxAge != Some(NotFinite);
    var domain := o.domain.Some? ==> ValidDomain(o.domain.value);
    match error
    case InvalidName(n) => n == name && !ValidName(name)
    case InvalidMaxAge => ValidName(name) && !maxAge
    case InvalidDomain(d) => ValidName(name) && maxAge && o.domain == Some(d) && !ValidDomain(d)
    case InvalidPath(p) => ValidName(name) && maxAge && domain && o.path == Some(p) && !ValidPath(p)
  }

  lemma ObjectionExact(name: string, o: Options, error: Error)
    ensures Objection(name, o) == Some(error) <==> AtFault(error, name, o)
    ensures Objection(name, o) == None <==>
              && ValidName(name) && o.maxAge != Some(NotFinite)
              && (o.domain.Some? ==> ValidDomain(o.domain.value))
              && (o.path.Some? ==> ValidPath(o.path.value))
  {
  }
}
