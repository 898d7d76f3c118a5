# Cookie jar of the FVAL / Springy PHP framework, in Dafny

This project models the framework's `Cookie` class (`www/system/library/Cookie.php`):
a static helper over the request's cookie table `$_COOKIE` and PHP's `setcookie()`.

- **Keys.** A caller names a cookie either by a string (`"name"`, or `"name[idx]"` for
  one entry of a cookie array) or by a one-pair array `{name => idx}`. The private
  scrubber `_scrubKey` turns a string ending in `word[word]` into the pair (by the
  regular expression `([\w\d]+)\[([\w\d]+)\]$`), and a pair back into `name[idx]`.
  Module `CookieKey` holds the scrubber as functions, the regular expression's
  leftmost-match meaning as an independent predicate (`MatchesAt`), and proofs
  that the two agree in both directions.
- **The table.** `$_COOKIE` maps each name to a string or to an array of sub-key
  to string. Module `CookieTable` models it as `map<string, CookieVal>`. A
  sub-array is a sequence of pairs with distinct keys, which keeps PHP's
  iteration order. The module also holds `exists` and `get`, and it gives the
  table and the header list that `delete` leaves as functions
  (`AfterDelete`, `DeleteHeaders`).
- **The class.** Module `CookieJar` has a class `Jar` with the table (`cookies`),
  the reserved names, and an append-only `log` of every header passed to
  `setcookie()`. `Delete`/`Del` prune the table in place. In the array case they
  loop over the sub-keys the way PHP's `foreach` does. Their contracts tie the
  new state to `AfterDelete`/`DeleteHeaders`. `Set` only appends a header, after
  the reserved-name check.

The clock `time()` is the parameter `now`. `Error::warning` becomes the
`ReservedWarning` outcome of `Set`. The reserved names are a constructor
argument, because the class declares an empty list (`Cookie.php:17`).

The regular expression is not anchored on the left, so the scrubber keeps only
the word run right before the last `[`. For example, `x-y[z]` becomes `{y => z}`
(`ScrubKeyTakesLastWordRun`). PCRE's `$` also matches before a final newline, so
`user[id]\n` becomes `{user => id}` (`ScrubKeyFinalNewline`). Both are modelled
as written.

## Model

| member | source | states |
|---|---|---|
| `CookieKey.ScrubKey` | www/system/library/Cookie.php:150-172 | the model of `_scrubKey`: towards the string form every key becomes a string; towards the array form an array key is untouched and a string key either stays as it is or becomes a pair of word runs. Its exact parse is `ScrubKeyParses`/`ScrubKeyKeepsPlain`, its inverse `RoundTrip`, its idempotence `ScrubKeyIdempotent` |
| `CookieKey.MatchBracketed` | www/system/library/Cookie.php:165 | the model of the `preg_match` call: when it matches, both groups are non-empty word runs that fit in the key with their two brackets. That it reports exactly the leftmost match is `MatchSound`/`MatchComplete` |
| `CookieKey.RunStart` | www/system/library/Cookie.php:165 | the greedy `[\w\d]+` that ends at a position starts where every character up to the end is a word character and the one before it is not |
| `CookieKey.RunStartExact` | www/system/library/Cookie.php:165 | any word run that ends at a position and cannot grow to the left is the run `RunStart` finds |
| `CookieKey.MatchSound` | www/system/library/Cookie.php:165-168 | every pair the matcher reports is a leftmost match of `([\w\d]+)\[([\w\d]+)\]$`: the key is some text (empty or ending in a non-word character), then `name[idx]` with word-run groups, then at most one final newline |
| `CookieKey.MatchComplete` | www/system/library/Cookie.php:165-168 | whenever the key has that shape, the matcher reports exactly that name and index |
| `CookieKey.ScrubKeyParses` | www/system/library/Cookie.php:162-169 | scrubbing a string key to array form gives `{name => idx}` if and only if the key is a leftmost match with those groups |
| `CookieKey.ScrubKeyKeepsPlain` | www/system/library/Cookie.php:163-171 | a string key comes back unchanged if and only if the pattern has no match in it |
| `CookieKey.ScrubKeyTakesLastWordRun` | www/system/library/Cookie.php:165-167 | `x-y[z]` becomes `{y => z}`: the pattern is not anchored, so the name is only the word run before the last `[` |
| `CookieKey.ScrubKeyFinalNewline` | www/system/library/Cookie.php:165-167 | `$` also matches before a final newline, so `user[id]\n` becomes `{user => id}` |
| `CookieKey.ScrubKeyNoMatchExamples` | www/system/library/Cookie.php:163-171 | `a[b]c`, `a[b][c]` and `plain` stay strings |
| `CookieKey.RoundTrip` | www/system/library/Cookie.php:152-167 | an array key `{k => v}` becomes the string `k[v]`; for word-run `k` and `v`, parsing that string gives `{k => v}` back; a string key is unchanged by the string direction, and an array key is unchanged by the parse direction |
| `CookieKey.ScrubKeyIdempotent` | www/system/library/Cookie.php:24-27 | scrubbing an already scrubbed key (as `delete` does before calling `exists`) changes nothing |
| `CookieTable.Exists` | www/system/library/Cookie.php:75-94 | the model of `exists`: a bracketed key exists exactly when its name holds an array with some entry under the sub-key; any other key exists exactly when its name is in the table. Related to `get` by `ExistsIffGet` and to `delete` by `DeleteSubEntry`, `DeleteString`, `DeleteWholeArray` |
| `CookieTable.Get` | www/system/library/Cookie.php:99-118 | the model of `get`: it returns something exactly when `exists` holds; for a bracketed key that is a string stored under the sub-key, otherwise the whole entry of the name. Uniqueness of the value is `GetSubEntry`, the whole-entry case `GetWholeEntry` |
| `CookieTable.ExpiryHeader` | www/system/library/Cookie.php:37 | the model of `setcookie($key, false, time() - 3600)` (also lines 49 and 58): a header for that name with no value and an expiry in the past |
| `CookieTable.AfterDelete` | www/system/library/Cookie.php:22-64 | the model of the table `delete` leaves: it never adds a name, never changes a string entry, and never adds an entry to an array. The effect of each branch is `DeleteSubEntry`, `DeleteWholeArray`, `DeleteString`, `DeleteMissing`; `Jar.Delete` is proved to produce it |
| `CookieTable.DeleteHeaders` | www/system/library/Cookie.php:22-64 | the model of the headers `delete` sends: every one is an expiry header at `now - 3600`, and there are none unless the key exists. The headers of each branch are in `DeleteSubEntry`, `DeleteWholeArray`, `DeleteString`, `DeleteMissing` |
| `CookieTable.Find` | www/system/library/Cookie.php:85 | a sub-key lookup returns a value stored under that sub-key, and returns null exactly when no entry has that sub-key |
| `CookieTable.Remove` | www/system/library/Cookie.php:40 | `unset` on a sub-array keeps exactly the entries whose key differs from the removed one |
| `CookieTable.RemoveHead` | www/system/library/Cookie.php:44-53 | in the `foreach`, unsetting the current sub-key leaves exactly the entries not yet visited, in order |
| `CookieTable.RemoveAppend` | www/system/library/Cookie.php:40 | `unset` on a concatenation is the concatenation of the `unset`s of its parts |
| `CookieTable.RemoveAt` | www/system/library/Cookie.php:40 | in an array with distinct keys, unsetting the key of the `i`-th entry takes out exactly that entry and keeps every other entry in its order |
| `CookieTable.FindAfterRemove` | www/system/library/Cookie.php:40 | removing one sub-key leaves the value under every other sub-key as it was |
| `CookieTable.ExistsIffGet` | www/system/library/Cookie.php:75-118 | `exists(key)` holds exactly when `get(key)` is not null |
| `CookieTable.GetSubEntry` | www/system/library/Cookie.php:104-110 | a bracketed key `k[v]` gets the string `x` if and only if `k` is an array entry that holds the pair `v => x` |
| `CookieTable.GetWholeEntry` | www/system/library/Cookie.php:88-114 | a key without a bracket ending gets the whole entry of that name (string or array), or null when the name is absent; it exists exactly when the name is present |
| `CookieTable.DeleteScrubsKey` | www/system/library/Cookie.php:24-34 | a string key and the array key it scrubs to have the same `exists` answer, delete the same entries and send the same headers |
| `CookieTable.DeleteSubEntry` | www/system/library/Cookie.php:27-41 | deleting an existing `{k => v}` (or, by `DeleteScrubsKey`, the string `k[v]`) leaves `k` as an array and no longer finds `v`. Every other sub-key and every other name keep their value. Exactly one expiry header `k[v]` at `now - 3600` is sent |
| `CookieTable.DeleteWholeArray` | www/system/library/Cookie.php:43-54 | deleting a name whose entry is an array leaves it an empty array that still exists. No sub-entry of it exists any more. Other names are untouched. One expiry header `name[sub]` is sent per sub-key, in the array's order |
| `CookieTable.DeleteString` | www/system/library/Cookie.php:56-61 | deleting a name whose entry is a string removes that name and nothing else, so it no longer exists; exactly one expiry header is sent |
| `CookieTable.DeleteMissing` | www/system/library/Cookie.php:26-27 | deleting a key that does not exist changes nothing and sends no header |
| `CookieTable.DeleteKeepsWellFormed` | www/system/library/Cookie.php:22-64 | after any delete every array in the table still has distinct keys |
| `CookieJar.IsReserved` | www/system/library/Cookie.php:134 | the model of `in_array($key, self::$_reserved)`: only a string key can be reserved, every string in the reserved list is, and with an empty list nothing is |
| `CookieJar.SetExpiry` | www/system/library/Cookie.php:139 | the model of `$expire ? time() + $expire : 0`: 0 (a session cookie) when `expire` is 0, otherwise `expire` seconds from `now`, so in the future exactly when `expire` is positive |
| `CookieJar.Jar.constructor` | www/system/library/Cookie.php:17 | a jar starts with the given table and reserved names and an empty header log |
| `CookieJar.Jar.Delete` | www/system/library/Cookie.php:22-64 | the table becomes `AfterDelete(old table, key)` and the log grows by exactly `DeleteHeaders(old table, key, now)`. The array branch's loop removes one sub-key per step and logs its header, as the `foreach` does. The table stays well formed |
| `CookieJar.Jar.Del` | www/system/library/Cookie.php:68-70 | `del` has the same effect on the table and the log as `delete` |
| `CookieJar.Jar.Set` | www/system/library/Cookie.php:132-145 | the cookie table is never modified. A reserved string key yields the warning outcome and sends nothing. Any other key appends exactly one header: its name is the key's string form, the value is the given value, the expiry is `now + expire` (0 when `expire` is 0), and path, domain, secure and httponly are as given (defaults `""`, `""`, false, true) |

## Left out

- `contents()` returns `$_COOKIE` itself; in the model that value is the field `Jar.cookies`, so there is no separate member.
- All headers sent by one `delete` share one clock reading `now`: PHP calls `time()` again for each `setcookie()` (lines 37, 49 and 58), so in an array delete that crosses a second boundary later headers could carry a later expiry. All of them are in the past either way.
- Transmission of the `Set-Cookie` header and its wire format are I/O; each `setcookie()` call is one entry of `Jar.log`, and its boolean result is not modelled.
- A bracketed key `k[v]` where `$_COOKIE[k]` is a string: PHP would test a string offset (`isset("str"[v])`); the model treats such a sub-entry as absent, for `exists`, `get` and `delete`.
- Array keys passed by the caller are exactly one pair `{name => idx}`; PHP's deprecated `each()` on an empty or longer array is not modelled.
- Cookie arrays nested deeper than one level (`a[b][c]` sent by the browser) are not modelled; an entry is a string or an array of strings.
- The order of top-level names in `$_COOKIE` is not kept (a `map`); only `contents()` would expose it, and sub-array order, which `delete` depends on, is kept.
- PHP turns numeric-string array keys into integers; since that mapping is one-to-one on the keys that reach the table, keys are kept as strings.
- CookieJar.Jar.Set: the reserved check is exact membership of a string key, where PHP's `in_array` compares loosely (numeric strings such as `"1e1"` and `"10"` would be equal); the declared reserved list is empty, so nothing observable changes.
- `Error::warning` is not part of this model; the reserved branch returns `ReservedWarning` instead.
- `www/system/library/Template/SmartyDriver.php` is adapter glue over the Smarty engine, the filesystem and global configuration, and is not part of this model.
- `conf/uri.default.conf.php` and `www/system/conf/cms.default.conf.php` are configuration data; the routing code that reads them is not part of this model.
