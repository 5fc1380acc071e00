/** Links to stored objects: minted for a key, followed by a browser, decoded by the server and
    checked. Characters stand for bytes; a signature stands for the text it signs. */
module SignedLinks {
  import opened Text
  import opened StorageKeys

  predicate IsBytes(s: string) {
    forall i :: 0 <= i < |s| ==> s[i] as int < 256
  }

  // ---- percent encoding ----

  /** The characters `url.PathEscape` leaves alone. */
  predicate Plain(c: char) {
    || 'a' <= c <= 'z' || 'A' <= c <= 'Z' || '0' <= c <= '9'
    || c in "-_.~$&+=:@"
  }

  function HexDigit(n: nat): (c: char)
    requires n < 16
  {
    "0123456789ABCDEF"[n]
  }

  function HexValue(c: char): Option<nat> {
    if '0' <= c <= '9' then Some((c - '0') as nat)
    else if 'a' <= c <= 'f' then Some((c - 'a') as nat + 10)
    else if 'A' <= c <= 'F' then Some((c - 'A') as nat + 10)
    else None
  }

  lemma HexRoundTrip(n: nat)
    requires n < 16
    ensures HexValue(HexDigit(n)) == Some(n)
  {
  }

  lemma HexBound(c: char)
    ensures HexValue(c).Some? ==> HexValue(c).value < 16
  {
  }

  function EscapeChar(c: char): string
    requires c as int < 256
  {
    if Plain(c) then [c] else ['%', HexDigit(c as int / 16), HexDigit(c as int % 16)]
  }

  function PathEscape(s: string): string
    requires IsBytes(s)
  {
    if s == "" then "" else EscapeChar(s[0]) + PathEscape(s[1..])
  }

  /** A percent sign and two hex digits begin the string. */
  predicate Escaped(s: string) {
    |s| >= 3 && s[0] == '%' && HexValue(s[1]).Some? && HexValue(s[2]).Some?
  }

  function PathUnescape(s: string): Option<string> {
    if s == "" then Some("")
    else if s[0] == '%' then
      if !Escaped(s) then None
      else
        match PathUnescape(s[3..])
        case None => None
        case Some(rest) =>
          HexBound(s[1]);
          HexBound(s[2]);
          Some([(HexValue(s[1]).value * 16 + HexValue(s[2]).value) as char] + rest)
    else
      match PathUnescape(s[1..])
      case None => None
      case Some(rest) => Some([s[0]] + rest)
  }

  /** The hexadecimal digit of a number, by its code: a figure, or a letter from `a` on. */
  predicate IsHexOf(code: int, n: nat, a: int) {
    code == if n < 10 then 48 + n else a + n - 10
  }

  lemma PlainByCode(c: char)
    ensures Plain(c) <==>
      var u := c as int;
      97 <= u <= 122 || 65 <= u <= 90 || 48 <= u <= 57 || u in {45, 95, 46, 126, 36, 38, 43, 61, 58, 64}
  {
  }

  lemma HexDigitByCode(n: nat)
    requires n < 16
    ensures IsHexOf(HexDigit(n) as int, n, 65)
  {
  }

  /** By their codes: letters, figures and `-_.~$&+=:@` stay, every other byte becomes a percent sign
      and two hexadecimal digits, in capitals. */
  lemma EscapedByCode(c: char)
    requires c as int < 256
    ensures var u, e := c as int, EscapeChar(c);
      if 97 <= u <= 122 || 65 <= u <= 90 || 48 <= u <= 57 || u in {45, 95, 46, 126, 36, 38, 43, 61, 58, 64} then e == [c]
      else |e| == 3 && e[0] as int == 37 && IsHexOf(e[1] as int, u / 16, 65) && IsHexOf(e[2] as int, u % 16, 65)
  {
    hide Plain, HexDigit, IsHexOf;
    PlainByCode(c);
    HexDigitByCode(c as int / 16);
    HexDigitByCode(c as int % 16);
  }

  /** Both capitals and small letters are read as digits. */
  lemma HexReadByCode(c: char, n: nat)
    ensures HexValue(c) == Some(n) <==> n < 16 && (IsHexOf(c as int, n, 65) || IsHexOf(c as int, n, 97))
  {
  }

  lemma EscapeCharReadsBack(c: char, rest: string)
    requires c as int < 256 && PathUnescape(rest).Some?
    ensures PathUnescape(EscapeChar(c) + rest) == Some([c] + PathUnescape(rest).value)
  {
    var e := EscapeChar(c) + rest;
    if Plain(c) {
      assert e[1..] == rest && c != '%';
    } else {
      HexRoundTrip(c as int / 16);
      HexRoundTrip(c as int % 16);
      assert e[3..] == rest;
      assert c as int == c as int / 16 * 16 + c as int % 16;
    }
  }

  /** Decoding undoes escaping, for every string of bytes. */
  lemma {:induction false} EscapeRoundTrip(s: string)
    requires IsBytes(s)
    ensures PathUnescape(PathEscape(s)) == Some(s)
  {
    if s != "" {
      EscapeRoundTrip(s[1..]);
      EscapeCharReadsBack(s[0], PathEscape(s[1..]));
      assert s == [s[0]] + s[1..];
    }
  }

  /** Every percent sign begins an escape. */
  ghost predicate AllEscapes(s: string) {
    forall i :: 0 <= i < |s| && s[i] == '%' ==> Escaped(s[i..])
  }

  lemma {:induction false} PlainUnescapes(s: string)
    requires '%' !in s
    ensures PathUnescape(s) == Some(s)
  {
    if s != "" {
      PlainUnescapes(s[1..]);
      assert s == [s[0]] + s[1..];
    }
  }

  lemma {:induction false} UnescapeShrinks(s: string)
    requires PathUnescape(s).Some?
    ensures |PathUnescape(s).value| <= |s|
    ensures '%' in s ==> |PathUnescape(s).value| < |s|
  {
    if s != "" {
      if s[0] == '%' {
        UnescapeShrinks(s[3..]);
      } else {
        UnescapeShrinks(s[1..]);
        assert s == [s[0]] + s[1..];
      }
    }
  }

  lemma {:induction false} UnescapesIff(s: string)
    ensures PathUnescape(s).Some? <==> AllEscapes(s)
  {
    if s != "" {
      assert s[0..] == s;
      if s[0] == '%' {
        if Escaped(s) {
          UnescapesIff(s[3..]);
          AfterEscape(s);
        }
      } else {
        UnescapesIff(s[1..]);
        AfterPlain(s);
      }
    }
  }

  lemma AfterPlain(s: string)
    requires s != "" && s[0] != '%'
    ensures AllEscapes(s) <==> AllEscapes(s[1..])
  {
    var rest := s[1..];
    forall i | 0 <= i < |rest|
      ensures rest[i] == s[i + 1] && rest[i..] == s[i + 1..]
    {
    }
    if AllEscapes(rest) {
      forall i | 0 <= i < |s| && s[i] == '%'
        ensures Escaped(s[i..])
      {
        assert rest[i - 1] == '%';
      }
    }
  }

  lemma AfterEscape(s: string)
    requires Escaped(s)
    ensures AllEscapes(s) <==> AllEscapes(s[3..])
  {
    var rest := s[3..];
    assert s[1] != '%' && s[2] != '%' && s[0..] == s;
    forall i | 0 <= i < |rest|
      ensures rest[i] == s[i + 3] && rest[i..] == s[i + 3..]
    {
    }
    if AllEscapes(rest) {
      forall i | 0 <= i < |s| && s[i] == '%'
        ensures Escaped(s[i..])
      {
        if i > 0 {
          assert rest[i - 3] == '%';
        }
      }
    }
  }

  // ---- minting and following a link ----

  /** A minted link: the escaped path behind the route, the expiry as text, and the signed text. */
  datatype Link = Link(path: string, expires: string, signed: string)

  function Presign(httpMethod: string, key: string, expires: int): (link: Option<Link>)
    requires IsBytes(key)
  {
    if !ValidKey(key) then None else Some(Link(PathEscape(key), Itoa(expires), Payload(httpMethod, key, expires)))
  }

  /** What the handler takes the key to be: the path comes decoded from the router, and is decoded
      once more if it can be. */
  function HandlerKey(path: string): Option<string> {
    match PathUnescape(path)
    case None => None
    case Some(decoded) =>
      var key := if decoded != "" && decoded[0] == '/' then decoded[1..] else decoded;
      match PathUnescape(key)
      case None => Some(key)
      case Some(again) => Some(again)
  }

  /** The handler lets a request through: a valid key, a time not past the expiry, and a signature
      over the request's own method, the key and the expiry. */
  function Admits(httpMethod: string, link: Link, now: int): (admitted: Option<string>) {
    match HandlerKey(link.path)
    case None => None
    case Some(key) =>
      if !ValidKey(key) then None
      else
        match Atoi(link.expires)
        case None => None
        case Some(expires) =>
          if now <= expires && link.signed == Payload(httpMethod, key, expires) then Some(key) else None
  }

  lemma HandlerKeyIs(key: string)
    requires ValidKey(key) && IsBytes(key)
    ensures HandlerKey(PathEscape(key)) == Some(if PathUnescape(key).Some? then PathUnescape(key).value else key)
  {
    EscapeRoundTrip(key);
    ValidKeyIsClean(key);
    hide PathUnescape, PathEscape, ValidKey, Clean;
  }

  /** A link opens its object, for the method it was minted for and until it expires, if and only if
      the key has no percent sign or one that begins no escape: otherwise the handler, decoding twice,
      takes it for another key and refuses. */
  lemma LinkOpensIff(minted: string, key: string, expires: int, httpMethod: string, now: int)
    requires ValidKey(key) && IsBytes(key) && -MAX_INT64 - 1 <= expires <= MAX_INT64
    requires '|' !in minted && '|' !in httpMethod
    ensures Admits(httpMethod, Presign(minted, key, expires).value, now)
      == if httpMethod == minted && now <= expires && ('%' in key ==> !AllEscapes(key)) then Some(key) else None
  {
    hide ValidKey, Payload, PathUnescape, PathEscape, HandlerKey, AllEscapes, Atoi, Itoa;
    HandlerKeyIs(key);
    AtoiOfItoa(expires);
    UnescapesIff(key);
    if '%' !in key {
      PlainUnescapes(key);
    } else if PathUnescape(key).Some? {
      UnescapeShrinks(key);
    }
    PayloadInjective(minted, key, expires, httpMethod, if PathUnescape(key).Some? then PathUnescape(key).value else key, expires);
  }

  /** Links are minted for valid keys only and let through for valid keys only, and a signature is good for
      nothing else: whatever the path and the expiry of a link that carries it, if the link is let
      through at all, it is for the key and the method the signature was made for, before its expiry. */
  lemma SignatureIsForOne(minted: string, key: string, expires: int, httpMethod: string, link: Link, now: int)
    requires IsBytes(key) && '|' !in minted && '|' !in httpMethod
    ensures Presign(minted, key, expires).Some? <==> ValidKey(key)
    ensures Admits(httpMethod, link, now).Some? ==> ValidKey(Admits(httpMethod, link, now).value)
    ensures ValidKey(key) && link.signed == Presign(minted, key, expires).value.signed && Admits(httpMethod, link, now).Some? ==>
      Admits(httpMethod, link, now) == Some(key) && httpMethod == minted && now <= expires
  {
    hide ValidKey, Payload, PathUnescape, PathEscape, HandlerKey, Atoi, Itoa;
    if ValidKey(key) && link.signed == Payload(minted, key, expires) && Admits(httpMethod, link, now).Some? {
      PayloadInjective(minted, key, expires, httpMethod, Admits(httpMethod, link, now).value, Atoi(link.expires).value);
    }
  }

  /** So the link minted for the valid key `a%41` opens nothing. */
  lemma EscapedKeyIsRefused(minted: string, expires: int, now: int)
    requires -MAX_INT64 - 1 <= expires <= MAX_INT64 && '|' !in minted
    ensures ValidKey("a%41") && Presign(minted, "a%41", expires).Some?
    ensures Admits(minted, Presign(minted, "a%41", expires).value, now) == None
  {
    SplitWhole("a%41", '/');
    assert "a%41"[1..] == "%41" && Escaped("%41");
    assert AllEscapes("a%41");
    LinkOpensIff(minted, "a%41", expires, minted, now);
  }
}
