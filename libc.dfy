/** The C memory routines of src/libc.rs: `memset`, `memcpy` and `memcmp`.  Memory
    is one byte array and a pointer is an index into it; the caller guarantees, as
    the `unsafe` functions demand, that every byte touched lies inside it. */
module Libc {

  newtype Byte = x: int | 0 <= x < 0x100

  /** `memset` of `size` bytes from `ptr`, one index after the other (src/libc.rs,
      and the copy in src/main.rs). */
  function Filled(s: seq<Byte>, ptr: nat, character: Byte, size: nat): (r: seq<Byte>)
    requires ptr + size <= |s|
    ensures |r| == |s|
    ensures forall i :: 0 <= i < |s| ==>
              r[i] == (if ptr <= i < ptr + size then character else s[i])
    decreases size
  {
    if size == 0 then s
    else Filled(s, ptr, character, size - 1)[ptr + size - 1 := character]
  }

  /** Filling a range a second time changes nothing. */
  lemma FilledIdempotent(s: seq<Byte>, ptr: nat, character: Byte, size: nat)
    requires ptr + size <= |s|
    ensures Filled(Filled(s, ptr, character, size), ptr, character, size)
            == Filled(s, ptr, character, size)
  {
    var once := Filled(s, ptr, character, size);
    var twice := Filled(once, ptr, character, size);
    forall i | 0 <= i < |s| ensures twice[i] == once[i] {
    }
  }

  /** Filling two adjacent ranges is filling their union. */
  lemma FilledSplit(s: seq<Byte>, ptr: nat, character: Byte, m: nat, n: nat)
    requires ptr + m + n <= |s|
    ensures Filled(Filled(s, ptr, character, m), ptr + m, character, n)
            == Filled(s, ptr, character, m + n)
  {
    var a := Filled(Filled(s, ptr, character, m), ptr + m, character, n);
    var b := Filled(s, ptr, character, m + n);
    forall i | 0 <= i < |s| ensures a[i] == b[i] {
    }
  }

  /** `memcpy` as written: index 0 first, each byte read from memory as the earlier
      steps left it. */
  function CopyForward(s: seq<Byte>, dest: nat, src: nat, size: nat): (r: seq<Byte>)
    requires dest + size <= |s| && src + size <= |s|
    ensures |r| == |s|
    ensures forall j :: 0 <= j < |s| && !(dest <= j < dest + size) ==> r[j] == s[j]
    decreases size
  {
    if size == 0 then s
    else
      var t := CopyForward(s, dest, src, size - 1);
      t[dest + size - 1 := t[src + size - 1]]
  }

  /** When the destination does not start above the source (in particular when the
      two ranges are disjoint), the copy holds the source's original bytes. */
  lemma {:induction false} CopyForwardCopies(s: seq<Byte>, dest: nat, src: nat, size: nat)
    requires dest + size <= |s| && src + size <= |s|
    requires dest <= src || src + size <= dest
    ensures forall j :: dest <= j < dest + size ==>
              CopyForward(s, dest, src, size)[j] == s[j - dest + src]
    decreases size
  {
    if size > 0 {
      CopyForwardCopies(s, dest, src, size - 1);
      var t := CopyForward(s, dest, src, size - 1);
      var r := CopyForward(s, dest, src, size);
      assert t[src + size - 1] == s[src + size - 1];
      forall j | dest <= j < dest + size ensures r[j] == s[j - dest + src] {
        if j < dest + size - 1 {
          assert r[j] == t[j];
        } else {
          assert r[j] == t[src + size - 1];
        }
      }
    }
  }

  /** With disjoint ranges the source bytes are still there afterwards. */
  lemma CopyKeepsSource(s: seq<Byte>, dest: nat, src: nat, size: nat)
    requires dest + size <= |s| && src + size <= |s|
    requires src + size <= dest || dest + size <= src
    ensures forall j :: src <= j < src + size ==> CopyForward(s, dest, src, size)[j] == s[j]
  {
  }

  /** When the destination starts inside the source range, `memcpy` as written
      repeats the first `dest - src` bytes: an overlapping copy upwards is not a
      move.  A concrete case: three bytes from 0 to 1 in [1, 2, 3, 4]. */
  lemma CopyForwardOverlapUp()
    ensures CopyForward([1, 2, 3, 4], 1, 0, 3) == [1, 1, 1, 1]
  {
    var s: seq<Byte> := [1, 2, 3, 4];
    assert CopyForward(s, 1, 0, 1) == [1, 1, 3, 4];
    assert CopyForward(s, 1, 0, 2) == [1, 1, 1, 4];
  }

  /** `memcmp`: -1 or 1 by the first differing byte, compared unsigned, and 0 when
      there is none. */
  function Compare(a: seq<Byte>, b: seq<Byte>): (r: int)
    requires |a| == |b|
    ensures r == -1 || r == 0 || r == 1
    ensures r == 0 <==> a == b
    decreases |a|
  {
    if a == [] then 0
    else if a[0] < b[0] then -1
    else if a[0] > b[0] then 1
    else
      assert a == [a[0]] + a[1..] && b == [b[0]] + b[1..];
      Compare(a[1..], b[1..])
  }

  /** The sign of the result is the order of the first differing bytes. */
  lemma {:induction false} CompareFirstDifference(a: seq<Byte>, b: seq<Byte>, k: nat)
    requires |a| == |b| && k < |a|
    requires a[..k] == b[..k] && a[k] != b[k]
    ensures Compare(a, b) == (if a[k] < b[k] then -1 else 1)
    decreases k
  {
    if k > 0 {
      assert a[0] == a[..k][0] && b[0] == b[..k][0];
      assert a[1..][..k - 1] == a[..k][1..] && b[1..][..k - 1] == b[..k][1..];
      CompareFirstDifference(a[1..], b[1..], k - 1);
    }
  }

  /** Swapping the operands flips the sign. */
  lemma {:induction false} CompareAntisymmetric(a: seq<Byte>, b: seq<Byte>)
    requires |a| == |b|
    ensures Compare(b, a) == -Compare(a, b)
    decreases |a|
  {
    if a != [] && a[0] == b[0] {
      CompareAntisymmetric(a[1..], b[1..]);
    }
  }

  /** Comparing no bytes gives 0. */
  lemma CompareNothing(mem: seq<Byte>, p: nat, q: nat)
    requires p <= |mem| && q <= |mem|
    ensures Compare(mem[p..p], mem[q..q]) == 0
  {
  }

  /** `memset`: `size` bytes from `ptr` set to `character`. */
  method Memset(mem: array<Byte>, ptr: nat, character: Byte, size: nat)
    requires ptr + size <= mem.Length
    modifies mem
    ensures mem[..] == Filled(old(mem[..]), ptr, character, size)
  {
    for index := 0 to size
      invariant mem[..] == Filled(old(mem[..]), ptr, character, index)
    {
      mem[ptr + index] := character;
    }
  }

  /** `memcpy`: byte `index` of `src` to byte `index` of `dest`, in ascending order. */
  method Memcpy(mem: array<Byte>, dest: nat, src: nat, size: nat)
    requires dest + size <= mem.Length && src + size <= mem.Length
    modifies mem
    ensures mem[..] == CopyForward(old(mem[..]), dest, src, size)
  {
    for index := 0 to size
      invariant mem[..] == CopyForward(old(mem[..]), dest, src, index)
    {
      mem[dest + index] := mem[src + index];
    }
  }

  /** `memcmp`: stops at the first differing byte. */
  method Memcmp(mem: array<Byte>, string1: nat, string2: nat, size: nat) returns (r: int)
    requires string1 + size <= mem.Length && string2 + size <= mem.Length
    ensures r == Compare(mem[string1..string1 + size], mem[string2..string2 + size])
  {
    ghost var a := mem[string1..string1 + size];
    ghost var b := mem[string2..string2 + size];
    for index := 0 to size
      invariant a[..index] == b[..index]
    {
      assert a[index] == mem[string1 + index] && b[index] == mem[string2 + index];
      if mem[string1 + index] < mem[string2 + index] {
        CompareFirstDifference(a, b, index);
        return -1;
      } else if mem[string1 + index] > mem[string2 + index] {
        CompareFirstDifference(a, b, index);
        return 1;
      }
      assert a[..index + 1] == a[..index] + [a[index]];
      assert b[..index + 1] == b[..index] + [b[index]];
    }
    assert a == a[..size] && b == b[..size];
    r := 0;
  }
}
