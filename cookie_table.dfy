/**
 * The request's cookie table (`$_COOKIE`) as the Cookie class reads and prunes it.
 *
 * Each top-level name maps to a string, or to a PHP array of sub-key to string
 * (a request cookie named `name[idx]` arrives that way).  PHP arrays keep their
 * insertion order, so a sub-array is kept here as a sequence of pairs with
 * distinct keys.
 */
module CookieTable {
  import opened Wrappers
  import opened CookieKey

  datatype CookieVal = Str(s: string) | Arr(entries: seq<(string, string)>)

  type Table = map<string, CookieVal>

  /** One header that `setcookie()` was asked to send; `value == None` is PHP's `false` (delete). */
  datatype Header = Header(name: string, value: Option<string>, expires: int,
                           path: string, domain: string, secure: bool, httpOnly: bool)

  predicate DistinctKeys(e: seq<(string, string)>) {
    forall i, j :: 0 <= i < j < |e| ==> e[i].0 != e[j].0
  }

  /** A PHP array never holds one key twice. */
  predicate WellFormed(t: Table) {
    forall n :: n in t && t[n].Arr? ==> DistinctKeys(t[n].entries)
  }

  /** `isset($arr[$k]) ? $arr[$k] : null` on a sub-array. */
  function Find(e: seq<(string, string)>, k: string): (r: Option<string>)
    ensures r.Some? ==> (k, r.value) in e
    ensures r.None? <==> forall p :: p in e ==> p.0 != k
  {
    if e == [] then None
    else if e[0].0 == k then Some(e[0].1)
    else Find(e[1..], k)
  }

  /** `unset($arr[$k])`: the sub-array without key `k`, the other entries in their order. */
  function Remove(e: seq<(string, string)>, k: string): (r: seq<(string, string)>)
    ensures forall p :: p in r <==> p in e && p.0 != k
  {
    if e == [] then []
    else if e[0].0 == k then Remove(e[1..], k)
    else [e[0]] + Remove(e[1..], k)
  }

  /** `Cookie::exists($key)`: `isset` on the sub-entry for a bracketed key, on the entry otherwise. */
  predicate Exists(t: Table, key: Key)
    ensures Exists(t, key) <==> match ScrubKey(key, false)
      case Pair(k, v) => k in t && t[k].Arr? && exists x :: (v, x) in t[k].entries
      case Plain(s) => s in t
  {
    match ScrubKey(key, false)
    case Pair(k, v) => k in t && t[k].Arr? && Find(t[k].entries, v).Some?
    case Plain(s) => s in t
  }

  /** `Cookie::get($key)`: the sub-entry's string for a bracketed key, the whole entry otherwise, or null. */
  function Get(t: Table, key: Key): (r: Option<CookieVal>)
    ensures r.Some? <==> Exists(t, key)
    ensures r.Some? && ScrubKey(key, false).Pair? ==>
      var k, v := ScrubKey(key, false).name, ScrubKey(key, false).idx;
      r.value.Str? && (v, r.value.s) in t[k].entries
    ensures r.Some? && ScrubKey(key, false).Plain? ==> r.value == t[ScrubKey(key, false).s]
  {
    match ScrubKey(key, false)
    case Pair(k, v) =>
      if k in t && t[k].Arr? && Find(t[k].entries, v).Some?
      then Some(Str(Find(t[k].entries, v).value))
      else None
    case Plain(s) => if s in t then Some(t[s]) else None
  }

  /** What `setcookie($name, false, time() - 3600)` sends: an expired deletion with PHP's defaults. */
  function ExpiryHeader(name: string, now: int): (h: Header)
    ensures h.name == name && h.value.None? && h.expires < now
  {
    Header(name, None, now - 3600, "", "", false, false)
  }

  /** One expiry header `key[sub]` per entry of a sub-array, in its order. */
  function SubKeyHeaders(key: string, e: seq<(string, string)>, now: int): seq<Header> {
    seq(|e|, i requires 0 <= i < |e| => ExpiryHeader(Bracketed(key, e[i].0), now))
  }

  /** The table left by `Cookie::delete($key)`. */
  function AfterDelete(t: Table, key: Key): (r: Table)
    ensures r.Keys <= t.Keys
    ensures forall n :: n in r && r[n].Str? ==> r[n] == t[n]
    ensures forall n :: n in r && r[n].Arr? ==> t[n].Arr? && forall p :: p in r[n].entries ==> p in t[n].entries
  {
    var sk := ScrubKey(key, false);
    if !Exists(t, sk) then t
    else
      match sk
      case Pair(k, v) => t[k := Arr(Remove(t[k].entries, v))]
      case Plain(s) => if t[s].Arr? then t[s := Arr([])] else t - {s}
  }

  /** The headers `Cookie::delete($key)` emits, in order. */
  function DeleteHeaders(t: Table, key: Key, now: int): (hs: seq<Header>)
    ensures hs != [] ==> Exists(t, key)
    ensures forall i :: 0 <= i < |hs| ==> hs[i] == ExpiryHeader(hs[i].name, now)
  {
    var sk := ScrubKey(key, false);
    if !Exists(t, sk) then []
    else
      match sk
      case Pair(k, v) => [ExpiryHeader(Bracketed(k, v), now)]
      case Plain(s) => if t[s].Arr? then SubKeyHeaders(s, t[s].entries, now) else [ExpiryHeader(s, now)]
  }

  // ---------------------------------------------------------------------------
  // Sub-arrays

  /** With distinct keys a sub-key has one value. */
  lemma KeyHasOneValue(e: seq<(string, string)>, k: string, a: string, b: string)
    requires DistinctKeys(e) && (k, a) in e && (k, b) in e
    ensures a == b
  {
    var i :| 0 <= i < |e| && e[i] == (k, a);
    var j :| 0 <= j < |e| && e[j] == (k, b);
    assert i == j;
  }

  /** Removing a key that is not there changes nothing. */
  lemma {:induction false} RemoveAbsent(e: seq<(string, string)>, k: string)
    requires forall p :: p in e ==> p.0 != k
    ensures Remove(e, k) == e
  {
    if e != [] {
      assert e[0] in e;
      assert forall p :: p in e[1..] ==> p in e;
      RemoveAbsent(e[1..], k);
      assert e == [e[0]] + e[1..];
    }
  }

  /** Removing the key of the first entry of a suffix leaves the rest of that suffix. */
  lemma RemoveHead(e: seq<(string, string)>, i: nat)
    requires DistinctKeys(e) && i < |e|
    ensures Remove(e[i..], e[i].0) == e[i + 1..]
  {
    forall p | p in e[i + 1..] ensures p.0 != e[i].0 {
      var j :| 0 <= j < |e[i + 1..]| && e[i + 1..][j] == p;
      assert p == e[i + 1 + j];
    }
    RemoveAbsent(e[i + 1..], e[i].0);
    assert e[i..][1..] == e[i + 1..];
  }

  /** `unset` works entry by entry, so it distributes over concatenation. */
  lemma {:induction false} RemoveAppend(a: seq<(string, string)>, b: seq<(string, string)>, k: string)
    ensures Remove(a + b, k) == Remove(a, k) + Remove(b, k)
  {
    if a != [] {
      assert (a + b)[1..] == a[1..] + b;
      RemoveAppend(a[1..], b, k);
    } else {
      assert a + b == b;
    }
  }

  /**
   * Unsetting the key of the `i`-th entry takes out exactly that entry: the entries
   * before and after it stay, in their order.
   */
  lemma RemoveAt(e: seq<(string, string)>, i: nat)
    requires DistinctKeys(e) && i < |e|
    ensures Remove(e, e[i].0) == e[..i] + e[i + 1..]
  {
    var k := e[i].0;
    forall p | p in e[..i] ensures p.0 != k {
      var j :| 0 <= j < i && e[..i][j] == p;
    }
    RemoveAbsent(e[..i], k);
    RemoveHead(e, i);
    assert e == e[..i] + e[i..];
    RemoveAppend(e[..i], e[i..], k);
  }

  /** Removing a key keeps the remaining keys distinct. */
  lemma {:induction false} RemoveKeepsDistinct(e: seq<(string, string)>, k: string)
    requires DistinctKeys(e)
    ensures DistinctKeys(Remove(e, k))
  {
    if e != [] {
      var rest := e[1..];
      assert DistinctKeys(rest) by {
        forall i, j | 0 <= i < j < |rest| ensures rest[i].0 != rest[j].0 {
          assert rest[i] == e[i + 1] && rest[j] == e[j + 1];
        }
      }
      RemoveKeepsDistinct(rest, k);
      if e[0].0 != k {
        var r := Remove(rest, k);
        forall j | 0 <= j < |r| ensures e[0].0 != r[j].0 {
          assert r[j] in r;
          var m :| 0 <= m < |rest| && rest[m] == r[j];
          assert e[m + 1] == r[j];
        }
        assert Remove(e, k) == [e[0]] + r;
      }
    }
  }

  /** Removing one key does not change the value found under any other key. */
  lemma {:induction false} FindAfterRemove(e: seq<(string, string)>, k: string, w: string)
    requires w != k
    ensures Find(Remove(e, k), w) == Find(e, w)
  {
    if e != [] {
      FindAfterRemove(e[1..], k, w);
      if e[0].0 != k {
        assert ([e[0]] + Remove(e[1..], k))[1..] == Remove(e[1..], k);
      }
    }
  }

  // ---------------------------------------------------------------------------
  // Lookups

  /** `exists` holds exactly when `get` returns something. */
  lemma ExistsIffGet(t: Table, key: Key)
    ensures Exists(t, key) <==> Get(t, key).Some?
  {
  }

  /** A bracketed key reads the string stored under the sub-key of an array entry, and nothing else. */
  lemma GetSubEntry(t: Table, key: Key, k: string, v: string, x: string)
    requires WellFormed(t) && ScrubKey(key, false) == Pair(k, v)
    ensures Get(t, key) == Some(Str(x)) <==> k in t && t[k].Arr? && (v, x) in t[k].entries
  {
    if k in t && t[k].Arr? && (v, x) in t[k].entries {
      var found := Find(t[k].entries, v);
      KeyHasOneValue(t[k].entries, v, found.value, x);
    }
  }

  /** A key with no `name[idx]` ending reads the whole entry of that name. */
  lemma GetWholeEntry(t: Table, s: string)
    requires ScrubKey(Plain(s), false) == Plain(s)
    ensures Get(t, Plain(s)) == if s in t then Some(t[s]) else None
    ensures Exists(t, Plain(s)) <==> s in t
  {
  }

  // ---------------------------------------------------------------------------
  // Deleting

  /**
   * `delete` works on the scrubbed key: a string key `"k[v]"` deletes exactly what the
   * array key `{k => v}` deletes, and `exists` sees the two alike.
   */
  lemma DeleteScrubsKey(t: Table, key: Key, now: int)
    ensures Exists(t, key) == Exists(t, ScrubKey(key, false))
    ensures AfterDelete(t, key) == AfterDelete(t, ScrubKey(key, false))
    ensures DeleteHeaders(t, key, now) == DeleteHeaders(t, ScrubKey(key, false), now)
  {
    ScrubKeyIdempotent(key);
  }

  /**
   * Deleting an existing `k[v]` removes only that sub-entry: `k` stays (maybe as an
   * empty array), every other sub-entry and every other name keep their values,
   * and one expiry header for `k[v]` is sent.
   */
  lemma DeleteSubEntry(t: Table, k: string, v: string, now: int)
    requires WellFormed(t) && k in t && t[k].Arr? && Find(t[k].entries, v).Some?
    ensures var t' := AfterDelete(t, Pair(k, v));
      k in t' && t'[k].Arr? && !Exists(t', Pair(k, v)) &&
      (forall w :: w != v ==> Find(t'[k].entries, w) == Find(t[k].entries, w)) &&
      t' - {k} == t - {k}
    ensures DeleteHeaders(t, Pair(k, v), now) == [ExpiryHeader(Bracketed(k, v), now)]
  {
    var t' := AfterDelete(t, Pair(k, v));
    assert t' == t[k := Arr(Remove(t[k].entries, v))];
    forall w | w != v ensures Find(t'[k].entries, w) == Find(t[k].entries, w) {
      FindAfterRemove(t[k].entries, v, w);
    }
  }

  /**
   * Deleting a name whose entry is an array sends one expiry header `name[sub]` per
   * sub-key in the array's order and empties the array; the name itself still exists.
   */
  lemma DeleteWholeArray(t: Table, s: string, now: int)
    requires ScrubKey(Plain(s), false) == Plain(s) && s in t && t[s].Arr?
    ensures var t' := AfterDelete(t, Plain(s));
      t'[s] == Arr([]) && Exists(t', Plain(s)) &&
      (forall sub :: !Exists(t', Pair(s, sub))) &&
      t' - {s} == t - {s}
    ensures var e, hs := t[s].entries, DeleteHeaders(t, Plain(s), now);
      |hs| == |e| && forall i :: 0 <= i < |e| ==> hs[i] == ExpiryHeader(Bracketed(s, e[i].0), now)
  {
  }

  /** Deleting a name whose entry is a string removes the name and sends exactly one expiry header. */
  lemma DeleteString(t: Table, s: string, now: int)
    requires ScrubKey(Plain(s), false) == Plain(s) && s in t && t[s].Str?
    ensures var t' := AfterDelete(t, Plain(s));
      s !in t' && !Exists(t', Plain(s)) && t' == t - {s}
    ensures DeleteHeaders(t, Plain(s), now) == [ExpiryHeader(s, now)]
  {
  }

  /** Deleting a key that does not exist leaves the table alone and sends nothing. */
  lemma DeleteMissing(t: Table, key: Key, now: int)
    requires !Exists(t, key)
    ensures AfterDelete(t, key) == t && DeleteHeaders(t, key, now) == []
  {
    ScrubKeyIdempotent(key);
  }

  /** Whatever is deleted, every array left in the table still has distinct keys. */
  lemma DeleteKeepsWellFormed(t: Table, key: Key)
    requires WellFormed(t)
    ensures WellFormed(AfterDelete(t, key))
  {
    var sk := ScrubKey(key, false);
    if Exists(t, sk) && sk.Pair? {
      RemoveKeepsDistinct(t[sk.name].entries, sk.idx);
    }
  }
}
