/** The memory guard: how the kernel probes a user address space before it
    dereferences anything a user process handed it (src/userprog/syscall.c,
    check_num32, check_str, get_user, put_user). */
module UserMemory {
  import opened Base

  /** The kernel/user split: user addresses lie strictly below it. */
  const PHYS_BASE: nat := 0xC000_0000

  /** A user address space as the byte probes see it: `bytes` holds every
      mapped (readable) byte, `writable` the addresses a store succeeds on. */
  datatype Memory = Memory(bytes: map<nat, Byte>, writable: set<nat>)

  /** A byte the validation accepts: below the split and readable. */
  predicate Readable(m: Memory, a: nat) {
    a < PHYS_BASE && a in m.bytes
  }

  /** A byte a store may target: below the split and writable. */
  predicate Storable(m: Memory, a: nat) {
    a < PHYS_BASE && a in m.writable
  }

  /** `get_user`: the byte at `a`, or -1 when the read faults.  Like the
      source's probe, it may only be asked about user addresses. */
  function GetUser(m: Memory, a: nat): (r: int)
    requires a < PHYS_BASE
    ensures r == -1 <==> !Readable(m, a)
    ensures r != -1 ==> r == m.bytes[a]
  {
    if a in m.bytes then m.bytes[a] else -1
  }

  /** `put_user`: stores `b` at `a` and reports success, or leaves the memory
      alone and reports failure.  It too may only be given user addresses. */
  function PutUser(m: Memory, a: nat, b: Byte): (r: (bool, Memory))
    requires a < PHYS_BASE
    ensures r.0 <==> a in m.writable
    ensures r.1.writable == m.writable
    ensures r.0 ==> r.1.bytes == m.bytes[a := b]
    ensures !r.0 ==> r.1 == m
  {
    if a in m.writable then (true, m.(bytes := m.bytes[a := b])) else (false, m)
  }

  /** All four bytes of the argument word at `p` may be read. */
  predicate WordValid(m: Memory, p: nat) {
    forall a :: p <= a < p + WORD_BYTES ==> Readable(m, a)
  }

  /** `p` holds a NUL-terminated string of length `n`: bytes `p..p+n` are
      readable user bytes, byte `p+n` is NUL and none before it is. */
  predicate CStrAt(m: Memory, p: nat, n: nat) {
    && (forall a :: p <= a < p + n ==> Readable(m, a) && m.bytes[a] != 0)
    && Readable(m, p + n)
    && m.bytes[p + n] == 0
  }

  /** `check_num32` (lines 364-375): probes the four bytes of the word at
      `p` in order, each first against the split and then with `get_user`.
      `ok == false` stands for the `sys_exit(-1)` the source performs. */
  method CheckNum32(m: Memory, p: nat) returns (ok: bool, ghost probed: set<nat>)
    ensures ok <==> WordValid(m, p)
    ensures forall a :: a in probed ==> p <= a < p + WORD_BYTES && a < PHYS_BASE
  {
    probed := {};
    var i: nat := 0;
    while i < WORD_BYTES
      invariant i <= WORD_BYTES
      invariant forall a :: p <= a < p + i ==> Readable(m, a)
      invariant forall a :: a in probed ==> p <= a < p + i && a < PHYS_BASE
    {
      if p + i >= PHYS_BASE {
        assert !Readable(m, p + i);
        return false, probed;
      }
      probed := probed + {p + i};
      if GetUser(m, p + i) == -1 {
        return false, probed;
      }
      i := i + 1;
    }
    return true, probed;
  }

  /** Once every byte from `p` up to `q` is a non-NUL user byte and byte `q`
      is not readable, no string starts at `p`. */
  lemma NoCStringPast(m: Memory, p: nat, q: nat)
    requires p <= q
    requires forall a :: p <= a < q ==> Readable(m, a) && m.bytes[a] != 0
    requires !Readable(m, q)
    ensures forall n :: !CStrAt(m, p, n)
  {
    forall n: nat ensures !CStrAt(m, p, n) {
      if n < q - p {
        assert p <= p + n < q;
        assert Readable(m, p + n) && m.bytes[p + n] != 0;
      } else if n > q - p {
        assert p <= q < p + n;
      }
    }
  }

  /** No prefix of a string is itself a string: the terminator is the first
      NUL. */
  lemma ShorterNotString(m: Memory, p: nat, n: nat)
    requires CStrAt(m, p, n)
    ensures forall k: nat :: k < n ==> !CStrAt(m, p, k)
  {
    forall k: nat | k < n ensures !CStrAt(m, p, k) {
      assert p <= p + k < p + n;
    }
  }

  /** A string at `p` has a single length. */
  lemma CStrAtUnique(m: Memory, p: nat, n1: nat, n2: nat)
    requires CStrAt(m, p, n1) && CStrAt(m, p, n2)
    ensures n1 == n2
  {
    ShorterNotString(m, p, n1);
    ShorterNotString(m, p, n2);
  }

  /** `check_str` (lines 378-392): walks from `p` one byte at a time, each
      byte first against the split and then with `get_user`, and stops at the
      first NUL.  It accepts exactly the addresses that hold a string,
      probes only user addresses, and never looks past the terminating NUL.
      `ok == false` stands for the `sys_exit(-1)` the source performs. */
  method CheckStr(m: Memory, p: nat) returns (ok: bool, ghost probed: set<nat>)
    ensures ok <==> exists n :: CStrAt(m, p, n)
    ensures forall a :: a in probed ==> p <= a < PHYS_BASE
    ensures forall n, a :: CStrAt(m, p, n) ==> (a in probed <==> p <= a <= p + n)
  {
    probed := {};
    var q := p;
    while true
      invariant p <= q
      invariant forall a :: p <= a < q ==> Readable(m, a) && m.bytes[a] != 0
      invariant forall a :: a in probed <==> p <= a < q
      invariant forall a :: a in probed ==> a < PHYS_BASE
      decreases PHYS_BASE - q
    {
      if q >= PHYS_BASE {
        NoCStringPast(m, p, q);
        return false, probed;
      }
      var val := GetUser(m, q);
      probed := probed + {q};
      if val == -1 {
        NoCStringPast(m, p, q);
        return false, probed;
      }
      if val == 0 {
        assert CStrAt(m, p, q - p);
        forall n | CStrAt(m, p, n) ensures n == q - p {
          CStrAtUnique(m, p, n, q - p);
        }
        return true, probed;
      }
      q := q + 1;
    }
  }

  /** A non-NUL readable byte at `p` extends a string at `p + 1` by one. */
  lemma CStrAtStep(m: Memory, p: nat, n: nat)
    requires Readable(m, p) && m.bytes[p] != 0
    ensures CStrAt(m, p, n + 1) <==> CStrAt(m, p + 1, n)
  {
    if CStrAt(m, p + 1, n) {
      forall a | p <= a < p + n + 1 ensures Readable(m, a) && m.bytes[a] != 0 {
        if a > p {
          assert p + 1 <= a < p + 1 + n;
        }
      }
    }
  }

  /** `strlen` of a string in user memory, or None when there is none. */
  function CStrLen(m: Memory, p: nat): (r: Option<nat>)
    ensures r.Some? ==> CStrAt(m, p, r.value)
    ensures r.None? ==> forall n :: !CStrAt(m, p, n)
    decreases PHYS_BASE - p
  {
    if p >= PHYS_BASE || p !in m.bytes then
      assert !Readable(m, p);
      NoCStringPast(m, p, p);
      None
    else if m.bytes[p] == 0 then
      Some(0)
    else
      match CStrLen(m, p + 1)
      case None =>
        assert forall n :: !CStrAt(m, p, n) by {
          forall n: nat ensures !CStrAt(m, p, n) {
            if n > 0 {
              CStrAtStep(m, p, n - 1);
            }
          }
        }
        None
      case Some(n) =>
        CStrAtStep(m, p, n);
        Some(n + 1)
  }

  /** The bytes of the string at `p` (without its NUL), as the storage
      engine and the loader receive a name or a command line. */
  function StringAt(m: Memory, p: nat, n: nat): (s: seq<Byte>)
    requires CStrAt(m, p, n)
    ensures |s| == n
    ensures forall i :: 0 <= i < n ==> Readable(m, p + i) && s[i] == m.bytes[p + i] && s[i] != 0
  {
    seq(n, i requires 0 <= i < n => assert p <= p + i < p + n && Readable(m, p + i); m.bytes[p + i])
  }

  /** `args[k]` once its word is validated: the x86 little-endian value of
      the four bytes at `p`, lowest byte first. */
  function ReadWord(m: Memory, p: nat): (w: int)
    requires WordValid(m, p)
    ensures IsWord(w)
    ensures Readable(m, p) && Readable(m, p + 1) && Readable(m, p + 2) && Readable(m, p + 3)
    ensures w % 0x100 == m.bytes[p]
    ensures w / 0x100 % 0x100 == m.bytes[p + 1]
    ensures w / 0x100 / 0x100 % 0x100 == m.bytes[p + 2]
    ensures w / 0x100 / 0x100 / 0x100 == m.bytes[p + 3]
  {
    assert Readable(m, p) && Readable(m, p + 1) && Readable(m, p + 2) && Readable(m, p + 3);
    var b0: int, b1: int, b2: int, b3: int := m.bytes[p], m.bytes[p + 1], m.bytes[p + 2], m.bytes[p + 3];
    var h2 := b2 + 0x100 * b3;
    var h1 := b1 + 0x100 * h2;
    ByteSplit(b0 + 0x100 * h1, b0, h1);
    ByteSplit(h1, b1, h2);
    ByteSplit(h2, b2, b3);
    b0 + 0x100 * h1
  }

  /** A value whose lowest byte is `lo` and whose higher bytes are `hi`. */
  lemma ByteSplit(x: int, lo: int, hi: int)
    requires 0 <= lo < 0x100 && x == lo + 0x100 * hi
    ensures x % 0x100 == lo && x / 0x100 == hi
  {
  }
}
