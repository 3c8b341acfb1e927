/** The bytes of a heap region.  Writing any field of a header leaves unspecified bytes in the whole
    extent of that header, so that keeping a payload intact is something to prove. */
module Arena {
  import opened BlockLayout

  ghost predicate Inside(b: Block, h: int, len: int) {
    0 <= b.addr && b.size >= 0 && b.addr + h + b.size <= len
  }

  ghost function Bytes(arena: array<bv8>, b: Block, h: nat): seq<bv8>
    requires Inside(b, h, arena.Length)
    reads arena
  {
    arena[b.addr + h..b.addr + h + b.size]
  }

  /** The front of a payload. */
  lemma BytesPrefix(arena: array<bv8>, b: Block, h: nat, n: nat)
    requires Inside(b, h, arena.Length) && n <= b.size
    ensures Bytes(arena, b, h)[..n] == arena[b.addr + h..b.addr + h + n]
  {
    var s := arena[..];
    assert s[b.addr + h..b.addr + h + b.size][..n] == s[b.addr + h..b.addr + h + n];
    assert Bytes(arena, b, h) == s[b.addr + h..b.addr + h + b.size];
    assert arena[b.addr + h..b.addr + h + n] == s[b.addr + h..b.addr + h + n];
  }

  /** Write the header at `a`; the shielded payloads do not overlap it and stay as they are. */
  method WriteHeader(arena: array<bv8>, a: nat, h: nat, ghost shield: set<Block>)
    requires a + h <= arena.Length
    requires forall b :: b in shield ==> Inside(b, h, arena.Length) && (a <= b.addr || b.addr + h + b.size <= a)
    modifies arena
    ensures forall b :: b in shield ==> Bytes(arena, b, h) == old(Bytes(arena, b, h))
  {
    for k := a to a + h
      invariant forall j :: 0 <= j < arena.Length && !(a <= j < a + h) ==> arena[j] == old(arena[j])
    {
      arena[k] := *;
    }
  }

  /** A fresh header at `a` destroys every header record it overlaps. */
  function Forget<V>(m: map<int, V>, a: int, h: int): map<int, V> {
    map x | x in m && !(a - h < x < a + h) :: m[x]
  }

  /** Copy `len` bytes; the shielded payloads do not overlap the destination and stay as they are. */
  method CopyBytes(arena: array<bv8>, dst: int, src: int, len: nat, h: nat, ghost shield: set<Block>)
    requires 0 <= dst && dst + len <= arena.Length && 0 <= src && src + len <= arena.Length
    requires dst + len <= src || src + len <= dst
    requires forall b :: b in shield ==>
             Inside(b, h, arena.Length) && (dst + len <= b.addr + h || b.addr + h + b.size <= dst)
    modifies arena
    ensures arena[dst..dst + len] == old(arena[src..src + len])
    ensures forall b :: b in shield ==> Bytes(arena, b, h) == old(Bytes(arena, b, h))
  {
    for k := 0 to len
      invariant forall j :: 0 <= j < arena.Length && !(dst <= j < dst + k) ==> arena[j] == old(arena[j])
      invariant forall j :: dst <= j < dst + k ==> arena[j] == old(arena[j - dst + src])
    {
      arena[dst + k] := arena[src + k];
    }
  }
}
