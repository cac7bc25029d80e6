/** libc/strnstr.c: bounded search in a C string. */
module Strnstr {
  import opened Bytes

  /** `find` lies at k, wholly within the first slen characters, and no NUL comes before it. */
  ghost predicate OccursAt(s: seq<byte>, find: seq<byte>, slen: nat, k: nat) {
    k + |find| <= slen && k + |find| <= |s| && s[k..k + |find|] == find && 0 !in s[..k]
  }

  ghost predicate Occurs(s: seq<byte>, find: seq<byte>, slen: nat) {
    exists k: nat :: OccursAt(s, find, slen, k)
  }

  /** Characters beyond the first slen do not matter. */
  lemma OccursInPrefix(s: seq<byte>, t: seq<byte>, find: seq<byte>, slen: nat)
    requires slen == |t| <= |s| && s[..slen] == t
    ensures Occurs(s, find, slen) <==> Occurs(t, find, slen)
  {
    assert forall i | 0 <= i < slen :: s[i] == s[..slen][i];
    forall k: nat | k + |find| <= slen
      ensures OccursAt(s, find, slen, k) <==> OccursAt(t, find, slen, k)
    {
      assert s[k..k + |find|] == t[k..k + |find|] && s[..k] == t[..k];
    }
  }

  /**
   The first occurrence, or None exactly when there is none. What may be read of s is its
   first slen characters or all up to its NUL, whichever is less; `find` is a C string.
   */
  method Search(s: seq<byte>, find: seq<byte>, slen: nat) returns (r: Option<nat>)
    requires slen <= |s| || 0 in s
    requires 0 !in find
    ensures r.Some? ==> OccursAt(s, find, slen, r.value) && forall j: nat | j < r.value :: !OccursAt(s, find, slen, j)
    ensures r.None? <==> !Occurs(s, find, slen)
  {
    var i := 0;
    if find != [] {
      var c, rest := find[0], find[1..];
      var len := |rest|;
      var remaining := slen;
      var found := false;
      while !found
        invariant i + remaining == slen && i <= |s| && 0 !in s[..i]
        invariant !found ==> forall j: nat | j < i :: !OccursAt(s, find, slen, j)
        invariant found ==> i > 0 && OccursAt(s, find, slen, i - 1)
        invariant found ==> forall j: nat | j < i - 1 :: !OccursAt(s, find, slen, j)
        decreases remaining
      {
        var sc := 0;
        ghost var before := remaining;
        while sc != c
          invariant i + remaining == slen && i <= |s| && 0 !in s[..i]
          invariant remaining <= before && (sc == c ==> remaining < before)
          invariant sc != c ==> forall j: nat | j < i :: !OccursAt(s, find, slen, j)
          invariant sc == c ==> i > 0 && s[i - 1] == c && forall j: nat | j < i - 1 :: !OccursAt(s, find, slen, j)
          decreases remaining, sc != c
        {
          if remaining < 1 { return None; }
          remaining := remaining - 1;
          sc := s[i];
          if sc == 0 { return None; }
          i := i + 1;
          assert s[i - 1..][0] == sc;
        }
        if len > remaining { return None; }
        found := i + len <= |s| && s[i..i + len] == rest;
        if found { assert s[i - 1..i - 1 + |find|] == [c] + rest == find; }
        else if i - 1 + |find| <= |s| { assert s[i - 1..i - 1 + |find|][1..] == s[i..i + len]; }
      }
      i := i - 1;
    }
    r := Some(i);
  }
}
