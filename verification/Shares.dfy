/** Byte sequences whose every byte belongs to somebody, and what belongs to whom. */
module Shares {
  import opened Basics

  /** The bytes of `bytes` that belong to `id`, in their order. */
  function Share(bytes: Bytes, owner: seq<nat>, id: nat): Bytes
    requires |bytes| == |owner|
  {
    if bytes == [] then [] else
      var n := |bytes| - 1;
      Share(bytes[..n], owner[..n], id) + (if owner[n] == id then [bytes[n]] else [])
  }

  lemma {:induction false} ShareAppend(a: Bytes, oa: seq<nat>, b: Bytes, ob: seq<nat>, id: nat)
    requires |a| == |oa| && |b| == |ob|
    ensures Share(a + b, oa + ob, id) == Share(a, oa, id) + Share(b, ob, id)
  {
    if b == [] {
      assert a + b == a && oa + ob == oa;
    } else {
      var n := |b| - 1;
      assert (a + b)[..|a + b| - 1] == a + b[..n];
      assert (oa + ob)[..|a + b| - 1] == oa + ob[..n];
      ShareAppend(a, oa, b[..n], ob[..n], id);
    }
  }

  lemma {:induction false} ShareUniform(b: Bytes, writer: nat, id: nat)
    ensures Share(b, seq(|b|, _ => writer), id) == if id == writer then b else []
  {
    if b != [] {
      var n := |b| - 1;
      assert seq(|b|, _ => writer)[..n] == seq(n, _ => writer);
      ShareUniform(b[..n], writer, id);
    }
  }

  /** Bytes added for one owner are added to that owner's share. */
  lemma {:induction false} ShareGrows(bytes: Bytes, owner: seq<nat>, more: Bytes, adder: nat, id: nat)
    requires |bytes| == |owner|
    ensures Share(bytes + more, owner + seq(|more|, _ => adder), id)
         == Share(bytes, owner, id) + if id == adder then more else []
  {
    ShareAppend(bytes, owner, more, seq(|more|, _ => adder), id);
    ShareUniform(more, adder, id);
  }

  lemma {:induction false} NotAnOwner(bytes: Bytes, owner: seq<nat>, id: nat)
    requires |bytes| == |owner| && id !in owner
    ensures Share(bytes, owner, id) == []
  {
    if bytes != [] {
      NotAnOwner(bytes[..|bytes| - 1], owner[..|bytes| - 1], id);
    }
  }
}
