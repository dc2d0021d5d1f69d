/**
 What several models share: optional values, 64-bit sizes, and the quota charge for a directory
 (src/filesystem.rs).
 */
module Common {

  datatype Option<+T> = None | Some(value: T)

  const U64_LIMIT: nat := 0x1_0000_0000_0000_0000
  const U64_MAX: nat := U64_LIMIT - 1

  type U64 = n: nat | n <= U64_MAX

  const DIRECTORY_QUOTA_BYTES: nat := 4096

  function Min(a: nat, b: nat): nat {
    if a < b then a else b
  }

  lemma SubsetSize<T>(a: set<T>, b: set<T>)
    requires a <= b
    ensures |a| <= |b|
  {
    assert b == a + (b - a);
  }
}
