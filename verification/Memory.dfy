/** Target memory, the kernel calls on it, and writes that cross regions of different protection. */
module Memory {
  import opened Bits

  datatype Protection = Protection(read: bool, write: bool, execute: bool)

  type Bytes = map<nat, Byte>
  type Protections = map<nat, Protection>

  /** User addresses stay far below the top of the 64-bit space. */
  const USER_LIMIT: nat := 0x8000_0000_0000

  // ---------- memory as a value ----------

  predicate Covered<T>(m: map<nat, T>, at: nat, n: nat)
  {
    forall a :: at <= a < at + n ==> a in m
  }

  /** Memory after the bytes of `data` are stored at `at`. */
  function Stored(m: Bytes, at: nat, data: seq<Byte>): (r: Bytes)
    ensures r.Keys == m.Keys
  {
    map a | a in m :: if at <= a < at + |data| then data[a - at] else m[a]
  }

  function Protected(m: Protections, at: nat, n: nat, p: Protection): (r: Protections)
    ensures r.Keys == m.Keys
  {
    map a | a in m :: if at <= a < at + n then p else m[a]
  }

  /** The n bytes at `at`. */
  function Loaded(m: Bytes, at: nat, n: nat): (r: seq<Byte>)
    requires Covered(m, at, n)
    ensures |r| == n
  {
    seq(n, i requires 0 <= i < n => m[at + i])
  }

  lemma StoredTwice(m: Bytes, at: nat, a: seq<Byte>, b: seq<Byte>)
    ensures Stored(Stored(m, at, a), at + |a|, b) == Stored(m, at, a + b)
  {}

  // ---------- the kernel's view of the target ----------

  /** A Mach task port.  A call that succeeds has done what its contract says; it fails when it cannot be carried out,
      and a fallible kernel may refuse it all the same. */
  class Task {
    const fallible: bool
    var bytes: Bytes
    var prot: Protections

    ghost predicate Valid()
      reads this`bytes, this`prot
    {
      bytes.Keys == prot.Keys && forall a :: a in bytes ==> a < USER_LIMIT
    }

    constructor (bytes: Bytes, prot: Protections, fallible: bool)
      requires bytes.Keys == prot.Keys && forall a :: a in bytes ==> a < USER_LIMIT
      ensures Valid() && this.bytes == bytes && this.prot == prot && this.fallible == fallible
    {
      this.bytes, this.prot, this.fallible := bytes, prot, fallible;
    }

    /** A region: non-empty, mapped, of one protection; it holds `at`, or `at` is unmapped and it lies above. */
    static predicate IsRegion(prot: Protections, at: nat, start: nat, size: nat, p: Protection)
    {
      && size > 0 && at < start + size
      && (start > at ==> at !in prot)
      && forall a :: start <= a < start + size ==> a in prot && prot[a] == p
    }

    /** mach_vm_region_recurse: any region the kernel may answer with, or a failure. */
    method FindRegion(at: nat) returns (ok: bool, start: nat, size: nat, p: Protection)
      ensures ok ==> IsRegion(prot, at, start, size, p)
      ensures !ok ==> fallible || forall a :: a in prot ==> a < at
    {
      start, size, p := *, *, *;
      ok := *;
      if ok { ok := IsRegion(prot, at, start, size, p); }
      if !ok && !fallible && exists a :: a in prot && at <= a {
        start :| start in prot && at <= start;
        if at in prot { start := at; }
        ok, size, p := true, 1, prot[start];
      }
    }

    /** mach_vm_protect */
    method Protect(at: nat, n: nat, p: Protection) returns (ok: bool)
      modifies this`prot
      ensures ok ==> Covered(old(prot), at, n) && prot == Protected(old(prot), at, n, p)
      ensures !ok ==> prot == old(prot) && (fallible || !Covered(prot, at, n))
    {
      ok := *;
      ok := (ok || !fallible) && Covered(prot, at, n);
      if ok { prot := Protected(prot, at, n, p); }
    }

    static predicate Writable(prot: Protections, at: nat, n: nat)
    {
      forall a :: at <= a < at + n ==> a in prot && prot[a].write
    }

    /** mach_vm_write: only where the protection allows it. */
    method Write(at: nat, data: seq<Byte>) returns (ok: bool)
      requires Valid()
      modifies this`bytes
      ensures Valid()
      ensures ok ==> Covered(old(bytes), at, |data|) && bytes == Stored(old(bytes), at, data)
      ensures !ok ==> bytes == old(bytes) && (fallible || !Writable(prot, at, |data|))
    {
      ok := *;
      ok := (ok || !fallible) && Writable(prot, at, |data|);
      if ok { bytes := Stored(bytes, at, data); }
    }

    /** mach_vm_read_overwrite */
    method Read(at: nat, n: nat) returns (ok: bool, data: seq<Byte>)
      ensures ok ==> Covered(bytes, at, n) && data == Loaded(bytes, at, n)
      ensures !ok ==> fallible || !Covered(bytes, at, n)
    {
      data := [];
      ok := *;
      ok := (ok || !fallible) && Covered(bytes, at, n);
      if ok { data := Loaded(bytes, at, n); }
    }
  }

  datatype WriteResult = Written | KernelFailed | CrossesUnmapped

  /** One chunk inside a region of protection `p`: lift the protection, write, put the protection back. */
  method WriteChunk(task: Task, at: nat, chunk: seq<Byte>, p: Protection) returns (ok: bool, ghost wrote: bool)
    requires task.Valid() && forall a :: at <= a < at + |chunk| ==> a in task.prot && task.prot[a] == p
    modifies task`bytes, task`prot
    ensures task.Valid() && task.prot.Keys == old(task.prot).Keys
    ensures task.bytes == if wrote then Stored(old(task.bytes), at, chunk) else old(task.bytes)
    ensures ok ==> wrote && task.prot == old(task.prot)
    ensures !ok ==> task.fallible
    ensures forall a :: a in task.prot && !(at <= a < at + |chunk|) ==> task.prot[a] == old(task.prot)[a]
  {
    wrote := false;
    if !p.write {
      ok := task.Protect(at, |chunk|, Protection(true, true, false));
      if !ok { return; }
    }
    var written := task.Write(at, chunk);
    wrote := written;
    var restored := true;
    if !p.write { restored := task.Protect(at, |chunk|, p); }
    ok := written && restored;
    assert ok ==> task.prot == old(task.prot);
  }

  /** The next chunk of a write: as much of `rest` as the region at `at` holds. */
  method WriteNext(task: Task, at: nat, rest: seq<Byte>) returns (r: WriteResult, amount: nat, ghost wrote: bool)
    requires task.Valid() && rest != []
    modifies task`bytes, task`prot
    ensures task.Valid() && task.prot.Keys == old(task.prot).Keys
    ensures amount <= |rest| && (wrote ==> 0 < amount && Covered(old(task.bytes), at, amount))
    ensures task.bytes == if wrote then Stored(old(task.bytes), at, rest[..amount]) else old(task.bytes)
    ensures r == Written ==> wrote
    ensures r == CrossesUnmapped ==> !wrote && at !in task.bytes
    ensures r == KernelFailed ==> task.fallible || (!wrote && at !in task.bytes)
    ensures r != KernelFailed ==> task.prot == old(task.prot)
    ensures forall a :: a in task.prot && !(at <= a < at + |rest|) ==> task.prot[a] == old(task.prot)[a]
  {
    amount, wrote := 0, false;
    var ok, start, size, p := task.FindRegion(at);
    if !ok { return KernelFailed, amount, wrote; }
    if start > at { return CrossesUnmapped, amount, wrote; }
    amount := if |rest| <= start + size - at then |rest| else start + size - at;
    ok, wrote := WriteChunk(task, at, rest[..amount], p);
    r := if ok then Written else KernelFailed;
  }

  /** Stores `data` at `address`, region by region, lifting write protection around each chunk.
      Success stores exactly the data and leaves every protection as it was; failure has stored a prefix, and has a
      cause: the next address is not mapped, or the kernel is fallible. */
  method WriteMemory(task: Task, address: U64, data: seq<Byte>) returns (r: WriteResult, ghost stored: nat)
    requires task.Valid()
    modifies task`bytes, task`prot
    ensures task.Valid() && task.prot.Keys == old(task.prot).Keys
    ensures stored <= |data| && task.bytes == Stored(old(task.bytes), address, data[..stored])
    ensures Covered(old(task.bytes), address, stored)
    ensures r == Written ==> stored == |data|
    ensures r == CrossesUnmapped ==> stored < |data| && address + stored !in old(task.bytes)
    ensures r == KernelFailed ==> task.fallible || (stored < |data| && address + stored !in old(task.bytes))
    ensures r != KernelFailed ==> task.prot == old(task.prot)
    ensures forall a :: a in task.prot && !(address <= a < address + |data|) ==> task.prot[a] == old(task.prot)[a]
  {
    var offset := 0;
    stored := 0;
    StoreNothing(task.bytes, address);
    hide Stored, Covered;
    CoveredSum(task.bytes, address, 0, 0);
    while offset < |data|
      invariant task.Valid() && offset <= |data| && stored == offset
      invariant task.prot == old(task.prot)
      invariant task.bytes == Stored(old(task.bytes), address, data[..offset])
      invariant Covered(old(task.bytes), address, offset)
      decreases |data| - offset
    {
      var rest := data[offset..];
      var amount;
      ghost var wrote;
      r, amount, wrote := WriteNext(task, address + offset, rest);
      StoredOn(old(task.bytes), address, data, offset, amount);
      if wrote {
        stored := offset + amount;
        CoveredSum(old(task.bytes), address, offset, amount);
      }
      if r != Written { return; }
      offset := offset + amount;
    }
    assert data[..offset] == data;
    r := Written;
  }

  lemma StoredOn(m: Bytes, at: nat, data: seq<Byte>, offset: nat, amount: nat)
    requires offset + amount <= |data|
    ensures Stored(Stored(m, at, data[..offset]), at + offset, data[offset..][..amount])
         == Stored(m, at, data[..offset + amount])
  {
    hide Stored;
    StoredTwice(m, at, data[..offset], data[offset..][..amount]);
    assert data[..offset] + data[offset..][..amount] == data[..offset + amount];
  }

  lemma CoveredSum(m: Bytes, at: nat, n: nat, k: nat)
    ensures Covered(m, at, 0)
    ensures Covered(m, at, n) && Covered(m, at + n, k) ==> Covered(m, at, n + k)
  {}

  lemma StoreNothing(m: Bytes, at: nat)
    ensures Stored(m, at, []) == m
  {}
}
