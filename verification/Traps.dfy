/** Software traps as an overlay on memory: a trap word replaces each patched instruction. */
module Traps {
  import opened Bits
  import opened Memory
  import Cursors

  /** brk #0, 0xd4200000, in memory order. */
  const TRAP: seq<Byte> := [0x00, 0x00, 0x20, 0xd4]

  lemma TrapIsBrk()
    ensures TRAP == Cursors.EncodeLe(0xd420_0000, 4)
  {
    assert Cursors.EncodeLe(0xd4, 1) == [0xd4];
    assert Cursors.EncodeLe(0xd420, 2) == [0x20, 0xd4];
    assert Cursors.EncodeLe(0xd4_2000, 3) == [0x00, 0x20, 0xd4];
  }

  ghost predicate Aligned(traps: set<nat>)
  {
    forall t :: t in traps ==> t % 4 == 0
  }

  /** The address of the instruction word that holds `a`. */
  function WordOf(a: nat): (w: nat)
    ensures w % 4 == 0 && w <= a < w + 4
  {
    a - a % 4
  }

  /** Memory `orig` with a trap word at every address of `traps`. */
  function Overlaid(orig: Bytes, traps: set<nat>): (r: Bytes)
    ensures r.Keys == orig.Keys
  {
    map a | a in orig :: if WordOf(a) in traps then TRAP[a % 4] else orig[a]
  }

  /** Words at aligned addresses do not overlap, so a byte lies in the word at `t` only if `t` is its word. */
  lemma WordUnique(a: nat, t: nat)
    requires t % 4 == 0 && t <= a < t + 4
    ensures WordOf(a) == t && a - t == a % 4
  {}

  /** Patching a trap over an unpatched word adds it to the overlay. */
  lemma PatchAddsTrap(orig: Bytes, traps: set<nat>, t: nat)
    requires t % 4 == 0 && Covered(orig, t, 4)
    ensures Stored(Overlaid(orig, traps), t, TRAP) == Overlaid(orig, traps + {t})
  {
    forall a | a in orig
      ensures Stored(Overlaid(orig, traps), t, TRAP)[a] == Overlaid(orig, traps + {t})[a]
    {
      if t <= a < t + 4 { WordUnique(a, t); }
    }
  }

  /** Writing the original word back removes the trap from the overlay. */
  lemma UnpatchRemovesTrap(orig: Bytes, traps: set<nat>, t: nat)
    requires t % 4 == 0 && Covered(orig, t, 4)
    ensures Stored(Overlaid(orig, traps), t, Loaded(orig, t, 4)) == Overlaid(orig, traps - {t})
  {
    var word := Loaded(orig, t, 4);
    assert forall i :: 0 <= i < 4 ==> word[i] == orig[t + i];
    hide Loaded;
    forall a | a in orig
      ensures Stored(Overlaid(orig, traps), t, word)[a] == Overlaid(orig, traps - {t})[a]
    {
      if t <= a < t + 4 { WordUnique(a, t); assert word[a - t] == orig[t + (a - t)]; }
    }
  }

  /** What enabling saves: an unpatched word reads as the original one. */
  lemma UnpatchedWord(orig: Bytes, traps: set<nat>, t: nat)
    requires t % 4 == 0 && Covered(orig, t, 4) && t !in traps
    ensures Loaded(Overlaid(orig, traps), t, 4) == Loaded(orig, t, 4)
  {
    forall i | 0 <= i < 4
      ensures Loaded(Overlaid(orig, traps), t, 4)[i] == Loaded(orig, t, 4)[i]
    {
      WordUnique(t + i, t);
    }
  }

  /** With no trap left, memory is the original memory. */
  lemma NoTraps(orig: Bytes)
    ensures Overlaid(orig, {}) == orig
  {}

  /** The data leaves every trap byte it covers as it is. */
  ghost predicate Spares(traps: set<nat>, at: nat, data: seq<Byte>)
  {
    forall i :: 0 <= i < |data| && WordOf(at + i) in traps ==> data[i] == TRAP[(at + i) % 4]
  }

  /** The data stays clear of every trap word. */
  ghost predicate Avoids(traps: set<nat>, at: nat, n: nat)
  {
    forall t :: t in traps ==> t + 4 <= at || at + n <= t
  }

  lemma AvoidingSpares(traps: set<nat>, at: nat, data: seq<Byte>)
    requires Aligned(traps) && Avoids(traps, at, |data|)
    ensures Spares(traps, at, data)
  {
    forall a | at <= a < at + |data|
      ensures WordOf(a) !in traps
    {
      assert WordOf(a) <= a < WordOf(a) + 4;
    }
  }

  /** A write keeps memory an overlay with the same traps exactly when it spares the trap bytes;
      the memory underneath then has the data stored, except below the traps. */
  lemma WriteKeepsOverlayIff(orig: Bytes, traps: set<nat>, at: nat, data: seq<Byte>)
    requires Covered(orig, at, |data|)
    ensures Spares(traps, at, data) <==>
              Stored(Overlaid(orig, traps), at, data) == Overlaid(Stored(orig, at, data), traps)
    ensures Spares(traps, at, data) <==>
              exists under: Bytes :: Stored(Overlaid(orig, traps), at, data) == Overlaid(under, traps)
  {
    var raw := Stored(Overlaid(orig, traps), at, data);
    if Spares(traps, at, data) {
      forall a | a in orig
        ensures raw[a] == Overlaid(Stored(orig, at, data), traps)[a]
      {
        if at <= a < at + |data| { assert a == at + (a - at); }
      }
      assert raw == Overlaid(Stored(orig, at, data), traps);
    } else {
      var i :| 0 <= i < |data| && WordOf(at + i) in traps && data[i] != TRAP[(at + i) % 4];
      assert raw[at + i] == data[i];
      forall under: Bytes
        ensures raw != Overlaid(under, traps)
      {
        if at + i in under { assert Overlaid(under, traps)[at + i] == TRAP[(at + i) % 4]; }
      }
    }
  }
}
