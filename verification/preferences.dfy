/**
 The non-volatile key-value store as the configurator sees it: named namespaces,
 each a map from key to string. Keys and values pass through a C string on the
 way in (`getString` and `putString` take `key.c_str()` and `value.c_str()`), so
 a key or stored value ends at its first NUL.
 */
module Preferences {

  /** One namespace: key to stored string. */
  type Namespace = map<string, string>

  /** The whole store: namespace name to namespace. */
  type Store = map<string, Namespace>

  const Nul: char := '\0'

  /** The C string seen through `c_str()`: everything before the first NUL. */
  function CString(s: string): (r: string)
    ensures r <= s
    ensures Nul !in r
    ensures |r| < |s| ==> s[|r|] == Nul
    ensures Nul !in s ==> r == s
  {
    if |s| == 0 || s[0] == Nul then "" else [s[0]] + CString(s[1..])
  }

  /** Every stored value has come through `putString`, so none contains a NUL. */
  predicate NulFree(st: Store) {
    forall ns, k :: ns in st && k in st[ns] ==> Nul !in st[ns][k]
  }

  /** The namespace `ns`, empty if it was never written. */
  function Space(st: Store, ns: string): Namespace {
    if ns in st then st[ns] else map[]
  }

  /**
   `getString(key.c_str(), default)` in namespace `ns`: the value stored under the
   C string of `key`, or the default when there is none.
   */
  function GetString(st: Store, ns: string, key: string, default: string): (r: string)
    ensures CString(key) in Space(st, ns) ==> r == Space(st, ns)[CString(key)]
    ensures CString(key) !in Space(st, ns) ==> r == default
  {
    var k := CString(key);
    if k in Space(st, ns) then Space(st, ns)[k] else default
  }

  /**
   `putString(key.c_str(), value.c_str())` in namespace `ns`: the C string of
   `value` is stored under the C string of `key`, so every key with the same
   C string reads it back; nothing else changes.
   */
  function PutString(st: Store, ns: string, key: string, value: string): (r: Store)
    ensures CString(key) in Space(r, ns) && GetString(r, ns, key, "") == CString(value)
    ensures forall k :: CString(k) == CString(key) ==> GetString(r, ns, k, "") == CString(value)
    ensures forall other :: other != ns ==> Space(r, other) == Space(st, other)
    ensures forall k :: CString(k) != CString(key) ==> GetString(r, ns, k, "") == GetString(st, ns, k, "")
    ensures NulFree(st) ==> NulFree(r)
  {
    st[ns := Space(st, ns)[CString(key) := CString(value)]]
  }

  /** `clear()` on namespace `ns`: every key of it is removed; other namespaces keep theirs. */
  function Clear(st: Store, ns: string): (r: Store)
    ensures Space(r, ns) == map[]
    ensures forall k, default :: GetString(r, ns, k, default) == default
    ensures forall other :: other != ns ==> Space(r, other) == Space(st, other)
    ensures NulFree(st) ==> NulFree(r)
  {
    st[ns := map[]]
  }
}
