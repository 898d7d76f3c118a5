/**
 * The Cookie class: the request's cookie table, which `delete` prunes in place,
 * and the headers the class hands to `setcookie()`, kept as an append-only log.
 * The clock (`time()`) is the parameter `now`.
 */
module CookieJar {
  import opened Wrappers
  import opened CookieKey
  import opened CookieTable

  /** What `Cookie::set` did: sent the header, or refused a reserved key with a warning. */
  datatype SetOutcome = Stored | ReservedWarning

  /** `in_array($key, self::$_reserved)`: only a string key can equal a reserved name. */
  predicate IsReserved(reserved: set<string>, key: Key)
    ensures IsReserved(reserved, key) ==> key.Plain? && reserved != {}
    ensures key.Plain? && key.s in reserved ==> IsReserved(reserved, key)
  {
    key.Plain? && key.s in reserved
  }

  /** The expiry `set` asks for: `time() + $expire`, or 0 (a session cookie) when `$expire` is 0. */
  function SetExpiry(now: int, expire: int): (r: int)
    ensures expire == 0 ==> r == 0
    ensures expire != 0 ==> r - now == expire
    ensures expire > 0 ==> r > now
    ensures expire < 0 ==> r < now
  {
    if expire != 0 then now + expire else 0
  }

  class Jar {
    /** `$_COOKIE`. */
    var cookies: Table
    /** Every header handed to `setcookie()`, oldest first. */
    var log: seq<Header>
    /** `self::$_reserved`. */
    const reserved: set<string>

    ghost predicate Valid()
      reads this
    {
      WellFormed(cookies)
    }

    constructor (cookies: Table, reserved: set<string>)
      requires WellFormed(cookies)
      ensures Valid() && this.cookies == cookies && log == [] && this.reserved == reserved
    {
      this.cookies := cookies;
      this.log := [];
      this.reserved := reserved;
    }

    /** `Cookie::delete($key)`. */
    method Delete(key: Key, now: int)
      requires Valid()
      modifies this
      ensures Valid()
      ensures cookies == AfterDelete(old(cookies), key)
      ensures log == old(log) + DeleteHeaders(old(cookies), key, now)
    {
      DeleteKeepsWellFormed(cookies, key);
      var k := ScrubKey(key, false);
      if Exists(cookies, k) {
        match k
        case Pair(name, idx) =>
          log := log + [ExpiryHeader(Bracketed(name, idx), now)];
          cookies := cookies[name := Arr(Remove(cookies[name].entries, idx))];
        case Plain(s) =>
          if cookies[s].Arr? {
            var entries := cookies[s].entries;
            assert cookies == old(cookies)[s := Arr(entries[0..])];
            var i := 0;
            while i < |entries|
              invariant i <= |entries|
              invariant cookies == old(cookies)[s := Arr(entries[i..])]
              invariant log == old(log) + SubKeyHeaders(s, entries[..i], now)
            {
              var sub := entries[i].0;
              log := log + [ExpiryHeader(Bracketed(s, sub), now)];
              RemoveHead(entries, i);
              cookies := cookies[s := Arr(Remove(cookies[s].entries, sub))];
              i := i + 1;
              assert SubKeyHeaders(s, entries[..i], now) ==
                     SubKeyHeaders(s, entries[..i - 1], now) + [ExpiryHeader(Bracketed(s, sub), now)];
            }
            assert entries[i..] == [] && entries[..i] == entries;
          } else {
            log := log + [ExpiryHeader(s, now)];
            cookies := cookies - {s};
          }
      }
    }

    /** `Cookie::del($key)`, the alias of `delete`. */
    method Del(key: Key, now: int)
      requires Valid()
      modifies this
      ensures Valid()
      ensures cookies == AfterDelete(old(cookies), key)
      ensures log == old(log) + DeleteHeaders(old(cookies), key, now)
    {
      Delete(key, now);
    }

    /**
     * `Cookie::set($key, $value, $expire, $path, $domain, $secure, $httponly)`.
     * The cookie table is never touched; a non-reserved key sends one header named
     * by the string form of the key.
     */
    method Set(key: Key, value: string, now: int, expire: int := 0, path: string := "",
               domain: string := "", secure: bool := false, httpOnly: bool := true)
      returns (outcome: SetOutcome)
      modifies this`log
      ensures cookies == old(cookies)
      ensures outcome == ReservedWarning <==> IsReserved(reserved, key)
      ensures outcome == ReservedWarning ==> log == old(log)
      ensures outcome == Stored ==>
        log == old(log) + [Header(ScrubKey(key, true).s, Some(value), SetExpiry(now, expire),
                                  path, domain, secure, httpOnly)]
    {
      if !IsReserved(reserved, key) {
        var name := ScrubKey(key, true);
        log := log + [Header(name.s, Some(value), SetExpiry(now, expire), path, domain, secure, httpOnly)];
        outcome := Stored;
      } else {
        outcome := ReservedWarning;
      }
    }
  }
}
