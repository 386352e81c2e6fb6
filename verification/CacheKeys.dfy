/** How one cache entry is named in Redis (cmd/cachenode/storage.go): a value key and an owner key. */
module CacheKeys {
  const CachePrefix: string := "cn:cache:"
  const OwnerPrefix: string := "cn:owner:"

  function CacheKey(k: string): string { CachePrefix + k }

  function OwnerKey(k: string): string { OwnerPrefix + k }

  /** strings.TrimPrefix */
  function TrimPrefix(s: string, prefix: string): string {
    if prefix <= s then s[|prefix|..] else s
  }

  lemma KeysApart(a: string, b: string)
    ensures CacheKey(a) != OwnerKey(b)
    ensures CacheKey(a) == CacheKey(b) ==> a == b
    ensures OwnerKey(a) == OwnerKey(b) ==> a == b
  {
    assert CacheKey(a)[3] == 'c' && OwnerKey(b)[3] == 'o';
    assert CacheKey(a)[9..] == a && CacheKey(b)[9..] == b;
    assert OwnerKey(a)[9..] == a && OwnerKey(b)[9..] == b;
  }

  /** Trimming the prefix of a value key finds its own entry again. */
  lemma TrimFindsEntry(s: string)
    requires CachePrefix <= s
    ensures CacheKey(TrimPrefix(s, CachePrefix)) == s
  {
  }

  lemma HasPrefix(k: string)
    ensures CachePrefix <= CacheKey(k) && OwnerPrefix <= OwnerKey(k)
    ensures !(CachePrefix <= OwnerKey(k)) && !(OwnerPrefix <= CacheKey(k))
  {
    assert CachePrefix[3] != OwnerKey(k)[3];
    assert OwnerPrefix[3] != CacheKey(k)[3];
  }
}
