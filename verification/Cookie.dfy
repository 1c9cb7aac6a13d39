/** Login cookies: the name carries the address, the value an expiry second and a signature. */
module Cookie {
  import opened Bytes
  import opened Wrappers
  import opened ProverTypes
  import opened Decimal
  import opened Base64Url
  import opened Token

  const TOKEN_PREFIX: string := "cpuser_"
  const SECOND: int := 1_000_000_000

  /** Times are nanoseconds since the Unix epoch. */
  datatype Cookie = Cookie(name: string, value: string, expires: int)

  datatype Manager = Manager(signKey: seq<byte>, expire: int)

  datatype CookieError = BadFormat | BadNumber(num: NumError) | BadToken(token: TokenError) | Expired | NotFound

  /** The Unix second of a time. */
  function Unix(time: int): int {
    time / SECOND
  }

  /** The seconds from the start of year 1, from which the clock library counts, to the Unix epoch. */
  const EPOCH: int := 62_135_596_800

  /** The clock and the lifetime stay within what 64-bit seconds can count from year 1. */
  predicate InRange(cm: Manager, now: int) {
    -TWO63 <= Unix(now + cm.expire) < TWO63 - EPOCH
  }

  /** The Unix second of the time made from an expiry: counting it from year 1 may wrap around. */
  function ExpirySecond(ts: int64): int {
    if ts + EPOCH < TWO63 then ts else ts - TWO64
  }

  function MakeCookie(hmac: Hmac, cm: Manager, addr: string, now: int): Cookie
    requires InRange(cm, now)
  {
    var expire := now + cm.expire;
    var ts := FormatInt(Unix(expire));
    var sig := SignToken(hmac, addr + ts, KeyBytes(cm.signKey)).value;
    Cookie(TOKEN_PREFIX + addr, ts + "_" + sig, expire)
  }

  /** A string cut at the first occurrence of a character, if there is one. */
  function SplitFirst(s: string, c: char): Option<(string, string)> {
    if s == "" then None
    else if s[0] == c then Some(("", s[1..]))
    else
      match SplitFirst(s[1..], c)
      case None => None
      case Some((a, b)) => Some(([s[0]] + a, b))
  }

  predicate HasPrefix(s: string, prefix: string) {
    prefix <= s
  }

  /** What the search makes of a cookie whose name has the prefix. */
  function Check(hmac: Hmac, cm: Manager, ck: Cookie, now: int): Result<string, CookieError>
    requires HasPrefix(ck.name, TOKEN_PREFIX)
  {
    var user := ck.name[|TOKEN_PREFIX|..];
    match SplitFirst(ck.value, '_')
    case None => Err(BadFormat)
    case Some((ts, sig)) =>
      match Atoi(ts)
      case Err(e) => Err(BadNumber(e))
      case Ok(tsInt) =>
        match VerifyToken(hmac, user + ts, sig, KeyBytes(cm.signKey))
        case Err(e) => Err(BadToken(e))
        case Ok(_) => if now < ExpirySecond(tsInt) * SECOND then Ok(user) else Err(Expired)
  }

  function Find(hmac: Hmac, cm: Manager, cks: seq<Cookie>, now: int): Result<string, CookieError> {
    if cks == [] then Err(NotFound)
    else if HasPrefix(cks[0].name, TOKEN_PREFIX) then Check(hmac, cm, cks[0], now)
    else Find(hmac, cm, cks[1..], now)
  }

  /** The search loop: it skips foreign cookies and decides on the first of its own. */
  method FindCookie(hmac: Hmac, cm: Manager, cks: seq<Cookie>, now: int) returns (r: Result<string, CookieError>)
    ensures r == Find(hmac, cm, cks, now)
  {
    var i := 0;
    while i < |cks|
      invariant 0 <= i <= |cks|
      invariant Find(hmac, cm, cks, now) == Find(hmac, cm, cks[i..], now)
    {
      var ck := cks[i];
      i := i + 1;
      assert cks[i - 1..][1..] == cks[i..];
      if !HasPrefix(ck.name, TOKEN_PREFIX) {
        continue;
      }
      var user := ck.name[|TOKEN_PREFIX|..];
      var parts := SplitFirst(ck.value, '_');
      if parts.None? {
        return Err(BadFormat);
      }
      var (ts, sig) := parts.value;
      var tsInt := Atoi(ts);
      if tsInt.Err? {
        return Err(BadNumber(tsInt.error));
      }
      var verified := VerifyToken(hmac, user + ts, sig, KeyBytes(cm.signKey));
      if verified.Err? {
        return Err(BadToken(verified.error));
      }
      if !(now < ExpirySecond(tsInt.value) * SECOND) {
        return Err(Expired);
      }
      return Ok(user);
    }
    return Err(NotFound);
  }

  lemma {:induction false} SplitAtFirst(a: string, c: char, b: string)
    requires c !in a
    ensures SplitFirst(a + [c] + b, c) == Some((a, b))
  {
    var s := a + [c] + b;
    if a == "" {
      assert s[1..] == b;
    } else {
      assert s[1..] == a[1..] + [c] + b;
      SplitAtFirst(a[1..], c, b);
      assert [a[0]] + a[1..] == a;
    }
  }

  lemma {:induction false} SplitMeaning(s: string, c: char)
    ensures match SplitFirst(s, c)
      case None => c !in s
      case Some((a, b)) => c !in a && s == a + [c] + b
  {
    if s != "" && s[0] != c {
      SplitMeaning(s[1..], c);
      assert s == [s[0]] + s[1..];
    }
  }

  /** A made cookie is accepted exactly until its expiry second, and gives back the address; the split
      is right although signatures may contain the separator, since the expiry cannot. */
  lemma CheckMade(hmac: Hmac, cm: Manager, addr: string, made: int, now: int)
    requires InRange(cm, made)
    ensures var ck := MakeCookie(hmac, cm, addr, made);
      && HasPrefix(ck.name, TOKEN_PREFIX)
      && Check(hmac, cm, ck, now) == if now < Unix(made + cm.expire) * SECOND then Ok(addr) else Err(Expired)
  {
    hide FormatInt, Atoi, SignToken, VerifyToken, SplitFirst;
    var ck := MakeCookie(hmac, cm, addr, made);
    var second := Unix(made + cm.expire);
    var ts, key := FormatInt(second), KeyBytes(cm.signKey);
    SignVerify(hmac, addr + ts, key);
    NoUnderscore(second);
    SplitAtFirst(ts, '_', SignToken(hmac, addr + ts, key).value);
    AtoiFormatInt(second);
    assert ck.name[|TOKEN_PREFIX|..] == addr;
  }

  lemma {:induction false} SkipForeign(hmac: Hmac, cm: Manager, before: seq<Cookie>, rest: seq<Cookie>, now: int)
    requires forall i :: 0 <= i < |before| ==> !HasPrefix(before[i].name, TOKEN_PREFIX)
    ensures Find(hmac, cm, before + rest, now) == Find(hmac, cm, rest, now)
  {
    if before == [] {
      assert before + rest == rest;
    } else {
      assert (before + rest)[1..] == before[1..] + rest;
      SkipForeign(hmac, cm, before[1..], rest, now);
    }
  }

  /** Main theorem: for every address and every list in which only foreign cookies come first, the
      address is recovered exactly while the clock is before the printed expiry second. */
  lemma CookieRoundTrip(hmac: Hmac, cm: Manager, addr: string, made: int, now: int,
                        before: seq<Cookie>, after: seq<Cookie>)
    requires InRange(cm, made)
    requires forall i :: 0 <= i < |before| ==> !HasPrefix(before[i].name, TOKEN_PREFIX)
    ensures Find(hmac, cm, before + [MakeCookie(hmac, cm, addr, made)] + after, now) ==
      if now < Unix(made + cm.expire) * SECOND then Ok(addr) else Err(Expired)
  {
    hide Check, MakeCookie;
    var ck := MakeCookie(hmac, cm, addr, made);
    assert before + [ck] + after == before + ([ck] + after);
    SkipForeign(hmac, cm, before, [ck] + after, now);
    CheckMade(hmac, cm, addr, made, now);
  }

  /** At any time that 64-bit Unix seconds can count, an expiry is still to come exactly if it does not
      wrap around, when counted from year 1, 719162 days before the epoch, and has not passed. */
  lemma FarExpiryHasPassed(ts: int64, now: int)
    requires now >= -TWO63 * 1_000_000_000
    ensures now < ExpirySecond(ts) * SECOND <==> ts + 719_162 * 86_400 < TWO63 && now < ts * 1_000_000_000
  {
  }

  /** What a made cookie holds. */
  lemma MadeCookie(hmac: Hmac, cm: Manager, addr: string, now: int)
    requires InRange(cm, now)
    ensures var ck := MakeCookie(hmac, cm, addr, now);
      && ck.name == "cpuser_" + addr && ck.expires == now + cm.expire
      && exists second: int64 ::
           && second * 1_000_000_000 <= ck.expires < (second + 1) * 1_000_000_000
           && ck.value == FormatInt(second) + "_" + EncodeSegment(hmac(cm.signKey, addr + FormatInt(second)))
  {
    hide FormatInt, EncodeSegment;
    var ck, second := MakeCookie(hmac, cm, addr, now), Unix(now + cm.expire);
    assert ck.value == FormatInt(second) + "_" + EncodeSegment(hmac(cm.signKey, addr + FormatInt(second)));
  }

  /** Why a cookie is refused: the first check that fails, in this order. */
  lemma CheckErrors(hmac: Hmac, cm: Manager, user: string, ck: Cookie, now: int, e: CookieError)
    requires ck.name == TOKEN_PREFIX + user
    ensures Check(hmac, cm, ck, now) == Err(e) <==>
      if '_' !in ck.value then e == BadFormat
      else exists ts: string, sig: string ::
        && '_' !in ts && ck.value == ts + "_" + sig
        && match Atoi(ts)
           case Err(ne) => e == BadNumber(ne)
           case Ok(tsInt) =>
             match VerifyToken(hmac, user + ts, sig, KeyBytes(cm.signKey))
             case Err(te) => e == BadToken(te)
             case Ok(_) => now >= ExpirySecond(tsInt) * SECOND && e == Expired
  {
    hide Atoi, VerifyToken, SplitFirst, ExpirySecond;
    SplitMeaning(ck.value, '_');
    assert ck.name[|TOKEN_PREFIX|..] == user;
    forall ts: string, sig: string | '_' !in ts && ck.value == ts + "_" + sig
      ensures SplitFirst(ck.value, '_') == Some((ts, sig))
    {
      SplitAtFirst(ts, '_', sig);
    }
    if SplitFirst(ck.value, '_').Some? {
      var (ts, sig) := SplitFirst(ck.value, '_').value;
      assert ck.value == ts + "_" + sig;
      assert '_' == ck.value[|ts|];
    }
  }

  /** The first cookie with the prefix decides; without one, nothing is found. */
  lemma {:induction false} FindDecides(hmac: Hmac, cm: Manager, cks: seq<Cookie>, i: nat, now: int)
    requires i <= |cks| && forall j :: 0 <= j < i ==> !HasPrefix(cks[j].name, "cpuser_")
    requires i < |cks| ==> HasPrefix(cks[i].name, "cpuser_")
    ensures Find(hmac, cm, cks, now) == if i < |cks| then Check(hmac, cm, cks[i], now) else Err(NotFound)
  {
    hide Check, HasPrefix;
    if i > 0 {
      FindDecides(hmac, cm, cks[1..], i - 1, now);
    }
  }

  /** A cookie that vouches for a user: it is named after the user, its expiry has not passed, and its
      signature is one of the name and the expiry written one after the other. */
  ghost predicate Vouches(hmac: Hmac, cm: Manager, ck: Cookie, user: string, now: int) {
    && ck.name == TOKEN_PREFIX + user
    && exists ts: string, sig: string ::
         && '_' !in ts && ck.value == ts + "_" + sig
         && Atoi(ts).Ok? && now < ExpirySecond(Atoi(ts).value) * SECOND
         && DecodeSegment(sig) == Some(hmac(cm.signKey, user + ts))
  }

  lemma CheckMeaning(hmac: Hmac, cm: Manager, ck: Cookie, user: string, now: int)
    requires HasPrefix(ck.name, TOKEN_PREFIX)
    ensures Check(hmac, cm, ck, now) == Ok(user) <==> Vouches(hmac, cm, ck, user, now)
  {
    hide Atoi, DecodeSegment, SplitFirst;
    SplitMeaning(ck.value, '_');
    if Vouches(hmac, cm, ck, user, now) {
      var ts: string, sig: string :|
        && '_' !in ts && ck.value == ts + "_" + sig
        && Atoi(ts).Ok? && now < ExpirySecond(Atoi(ts).value) * SECOND
        && DecodeSegment(sig) == Some(hmac(cm.signKey, user + ts));
      SplitAtFirst(ts, '_', sig);
    }
    if Check(hmac, cm, ck, now) == Ok(user) {
      var (ts, sig) := SplitFirst(ck.value, '_').value;
      assert ck.value == ts + "_" + sig;
    }
  }

  /** What a signature fixes: made for an address and an expiry, it fits the users and expiries that the
      keyed hash does not tell from them when written one after the other. The same concatenation always
      fits; in it, the address is the user exactly if the expiries have as many characters. */
  lemma SignatureFixesConcatenation(hmac: Hmac, cm: Manager, addr: string, ts0: string, sig: string,
                                    user: string, ts: string, expires: int, now: int)
    requires '_' !in ts && DecodeSegment(sig) == Some(hmac(cm.signKey, addr + ts0))
    ensures Check(hmac, cm, Cookie(TOKEN_PREFIX + user, ts + "_" + sig, expires), now) == Ok(user) <==>
      && hmac(cm.signKey, user + ts) == hmac(cm.signKey, addr + ts0)
      && Atoi(ts).Ok? && now < ExpirySecond(Atoi(ts).value) * SECOND
    ensures user + ts == addr + ts0 ==> (user == addr <==> |ts| == |ts0|)
  {
    hide Atoi, DecodeSegment, SplitFirst, ExpirySecond;
    SplitAtFirst(ts, '_', sig);
    assert (TOKEN_PREFIX + user)[|TOKEN_PREFIX|..] == user;
    if user + ts == addr + ts0 && |ts| == |ts0| {
      assert user == (user + ts)[..|user|];
      assert addr == (addr + ts0)[..|addr|];
    }
  }

  /** A keyed hash that gives the two messages different values unless they are equal. */
  predicate TellsApart(hmac: Hmac, key: seq<byte>, m: string, m': string) {
    hmac(key, m) == hmac(key, m') ==> m == m'
  }

  /** Unless the two messages collide, it is the concatenation alone that is fixed, and the user with it
      as soon as all expiries are printed with the same number of characters. */
  lemma SignatureFixesUser(hmac: Hmac, cm: Manager, addr: string, ts0: string, sig: string,
                           user: string, ts: string, expires: int, now: int)
    requires '_' !in ts && DecodeSegment(sig) == Some(hmac(cm.signKey, addr + ts0))
    requires TellsApart(hmac, cm.signKey, user + ts, addr + ts0)
    ensures var r := Check(hmac, cm, Cookie(TOKEN_PREFIX + user, ts + "_" + sig, expires), now);
      && (r == Ok(user) <==> user + ts == addr + ts0 && Atoi(ts).Ok? && now < ExpirySecond(Atoi(ts).value) * SECOND)
      && (r == Ok(user) && |ts| == |ts0| ==> user == addr && ts == ts0)
  {
    SignatureFixesConcatenation(hmac, cm, addr, ts0, sig, user, ts, expires, now);
    hide Atoi, DecodeSegment, Check, ExpirySecond;
    if user + ts == addr + ts0 && user == addr {
      assert ts == (user + ts)[|user|..];
      assert ts0 == (addr + ts0)[|addr|..];
    }
  }

  /** An instance for every keyed hash and key: the address "a1" with expiry 5 and the user "a" with
      expiry 15 are one concatenation, so that a signature made for the one vouches for the other. */
  lemma TwoReadingsOfOneSignature(hmac: Hmac, key: seq<byte>, now: int)
    ensures var cm := Manager(key, 5 * SECOND);
      var made := MakeCookie(hmac, cm, "a1", 0);
      var other := Cookie(TOKEN_PREFIX + "a", "1" + made.value, made.expires);
      Check(hmac, cm, other, now) == if now < 15 * SECOND then Ok("a") else Err(Expired)
  {
    var cm := Manager(key, 5 * SECOND);
    var sig := EncodeSegment(hmac(key, "a1" + "5"));
    Fifteen();
    SegmentRoundTrip(hmac(key, "a1" + "5"));
    hide Atoi, FormatInt, EncodeSegment, DecodeSegment, SplitFirst;
    SplitAtFirst("15", '_', sig);
    assert "1" + ("5" + "_" + sig) == "15" + "_" + sig;
    assert (TOKEN_PREFIX + "a")[|TOKEN_PREFIX|..] == "a";
    assert "a" + "15" == "a1" + "5";
  }

  lemma Fifteen()
    ensures FormatInt(5) == "5" && Atoi("15") == Ok(15)
  {
    assert Digits(15) == "15" by {
      assert Digits(1) == "1";
    }
    AtoiFormatInt(15);
  }

  lemma VouchedName(hmac: Hmac, cm: Manager, ck: Cookie, user: string, now: int)
    ensures Vouches(hmac, cm, ck, user, now) ==> HasPrefix(ck.name, TOKEN_PREFIX)
  {
  }

  /** Cookie i vouches for the user, and no cookie before it has the prefix. */
  ghost predicate FirstOwn(hmac: Hmac, cm: Manager, cks: seq<Cookie>, i: nat, user: string, now: int) {
    && i < |cks|
    && Vouches(hmac, cm, cks[i], user, now)
    && forall j :: 0 <= j < i ==> !HasPrefix(cks[j].name, TOKEN_PREFIX)
  }

  lemma FirstOwnShift(hmac: Hmac, cm: Manager, cks: seq<Cookie>, i: nat, user: string, now: int)
    requires cks != [] && !HasPrefix(cks[0].name, TOKEN_PREFIX)
    ensures FirstOwn(hmac, cm, cks[1..], i, user, now) <==> FirstOwn(hmac, cm, cks, i + 1, user, now)
  {
    hide Vouches, HasPrefix;
    if FirstOwn(hmac, cm, cks, i + 1, user, now) {
      assert forall j :: 0 <= j < i ==> cks[1..][j] == cks[j + 1];
    }
    if FirstOwn(hmac, cm, cks[1..], i, user, now) {
      assert forall j :: 0 < j < i + 1 ==> cks[j] == cks[1..][j - 1];
    }
  }

  /** Over all lists: a user is found if and only if the first cookie with the prefix vouches for it. That
      need not be the address the signature was made for, as SignatureFixesConcatenation says. */
  lemma {:induction false} FindMeaning(hmac: Hmac, cm: Manager, cks: seq<Cookie>, user: string, now: int)
    ensures Find(hmac, cm, cks, now) == Ok(user) <==> exists i: nat :: FirstOwn(hmac, cm, cks, i, user, now)
  {
    if cks != [] {
      VouchedName(hmac, cm, cks[0], user, now);
      hide Check, Vouches, HasPrefix;
      if HasPrefix(cks[0].name, TOKEN_PREFIX) {
        CheckMeaning(hmac, cm, cks[0], user, now);
        assert Vouches(hmac, cm, cks[0], user, now) ==> FirstOwn(hmac, cm, cks, 0, user, now);
      } else {
        FindMeaning(hmac, cm, cks[1..], user, now);
        if i: nat :| FirstOwn(hmac, cm, cks[1..], i, user, now) {
          FirstOwnShift(hmac, cm, cks, i, user, now);
        }
        if i: nat :| FirstOwn(hmac, cm, cks, i, user, now) {
          FirstOwnShift(hmac, cm, cks, i - 1, user, now);
        }
      }
    }
  }
}
