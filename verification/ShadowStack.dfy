/** The ring of the last 64 (pc, sp) pairs (`emu_record_shadow_stack` and its getters). */
module ShadowStack {
  import opened Words

  const SHADOW_STACK_SIZE: nat := 64

  type Ring = r: seq<word> | |r| == SHADOW_STACK_SIZE witness seq(SHADOW_STACK_SIZE, _ => 0)

  datatype Slots = Slots(pcs: Ring, sps: Ring, idx: nat, count: nat) {
    predicate Valid() {
      idx < SHADOW_STACK_SIZE && count <= SHADOW_STACK_SIZE && (count < SHADOW_STACK_SIZE ==> idx == count)
    }

    function Record(pc: word, sp: word): (r: Shadow)
      requires Valid()
    {
      Slots(pcs[idx := pc], sps[idx := sp], (idx + 1) % SHADOW_STACK_SIZE,
             if count < SHADOW_STACK_SIZE then count + 1 else count)
    }

    /** `cortex_emu_get_shadow_stack_pc`: 0 past the recorded pairs. */
    function GetPc(i: word): word
      requires Valid()
    {
      if i >= count then 0
      else pcs[((if count < SHADOW_STACK_SIZE then 0 else idx) + i) % SHADOW_STACK_SIZE]
    }

    function GetSp(i: word): word
      requires Valid()
    {
      if i >= count then 0
      else sps[((if count < SHADOW_STACK_SIZE then 0 else idx) + i) % SHADOW_STACK_SIZE]
    }
  }

  /** A ring in one of the states that recording can bring about. */
  type Shadow = s: Slots | s.Valid()
    witness Slots(seq(SHADOW_STACK_SIZE, _ => 0), seq(SHADOW_STACK_SIZE, _ => 0), 0, 0)

  function Empty(): Shadow {
    Slots(seq(SHADOW_STACK_SIZE, _ => 0), seq(SHADOW_STACK_SIZE, _ => 0), 0, 0)
  }

  function RecordAll(history: seq<(word, word)>): (s: Shadow)
  {
    if |history| == 0 then Empty()
    else
      var last := history[|history| - 1];
      RecordAll(history[..|history| - 1]).Record(last.0, last.1)
  }

  /** Where the ring stands after a history: item `k` of the last 64 sits in slot `k % 64`. */
  ghost predicate Mirrors(s: Shadow, history: seq<(word, word)>) {
    && s.idx == |history| % SHADOW_STACK_SIZE
    && s.count == (if |history| < SHADOW_STACK_SIZE then |history| else SHADOW_STACK_SIZE)
    && forall k :: 0 <= k < |history| && |history| <= k + SHADOW_STACK_SIZE ==>
         s.pcs[k % SHADOW_STACK_SIZE] == history[k].0 && s.sps[k % SHADOW_STACK_SIZE] == history[k].1
  }

  lemma RecordMirrors(s: Shadow, history: seq<(word, word)>, pc: word, sp: word)
    requires Mirrors(s, history)
    ensures Mirrors(s.Record(pc, sp), history + [(pc, sp)])
  {
    var n := |history|;
    var r, longer := s.Record(pc, sp), history + [(pc, sp)];
    NextSlot(n);
    forall k | 0 <= k < |longer| && |longer| <= k + SHADOW_STACK_SIZE
      ensures r.pcs[k % SHADOW_STACK_SIZE] == longer[k].0 && r.sps[k % SHADOW_STACK_SIZE] == longer[k].1
    {
      if k < n {
        DistinctSlots(k, n);
        assert longer[k] == history[k];
      }
    }
  }

  lemma {:induction false} RingHoldsHistory(history: seq<(word, word)>)
    ensures Mirrors(RecordAll(history), history)
  {
    if |history| == 0 {
    } else {
      var n := |history| - 1;
      RingHoldsHistory(history[..n]);
      RecordMirrors(RecordAll(history[..n]), history[..n], history[n].0, history[n].1);
      assert history == history[..n] + [(history[n].0, history[n].1)];
    }
  }

  lemma NextSlot(n: nat)
    ensures (n + 1) % SHADOW_STACK_SIZE == (n % SHADOW_STACK_SIZE + 1) % SHADOW_STACK_SIZE
    ensures n < SHADOW_STACK_SIZE ==> n % SHADOW_STACK_SIZE == n
  {
  }

  lemma DistinctSlots(k: nat, n: nat)
    requires k < n < k + SHADOW_STACK_SIZE
    ensures k % SHADOW_STACK_SIZE != n % SHADOW_STACK_SIZE
  {
  }

  /** The getters return exactly the last `min(n, 64)` recorded pairs, oldest first, and 0
      beyond them. */
  lemma ShadowStackIsRecentHistory(history: seq<(word, word)>, i: word)
    ensures var s := RecordAll(history);
      var n := |history|;
      var kept := if n < 64 then n else 64;
      && s.count == kept
      && (i < kept ==> s.GetPc(i) == history[n - kept + i].0 && s.GetSp(i) == history[n - kept + i].1)
      && (i >= kept ==> s.GetPc(i) == 0 && s.GetSp(i) == 0)
  {
    hide RecordAll;
    RingHoldsHistory(history);
    var n := |history|;
    if n < SHADOW_STACK_SIZE {
      NextSlot(i);
    } else if i < SHADOW_STACK_SIZE {
      SlotOfItem(n, i);
      var k := n - SHADOW_STACK_SIZE + i;
      assert RecordAll(history).pcs[k % SHADOW_STACK_SIZE] == history[k].0;
    }
  }

  lemma SlotOfItem(n: nat, i: nat)
    requires SHADOW_STACK_SIZE <= n
    ensures (n % SHADOW_STACK_SIZE + i) % SHADOW_STACK_SIZE == (n - SHADOW_STACK_SIZE + i) % SHADOW_STACK_SIZE
  {
  }

  /** The ring as the object that is updated in place. */
  class ShadowRing {
    const pcs: array<word>
    const sps: array<word>
    var idx: nat
    var count: nat

    ghost predicate Valid()
      reads this
    {
      && pcs.Length == SHADOW_STACK_SIZE == sps.Length && pcs != sps
      && idx < SHADOW_STACK_SIZE && count <= SHADOW_STACK_SIZE
      && (count < SHADOW_STACK_SIZE ==> idx == count)
    }

    ghost function View(): (s: Shadow)
      requires Valid()
      reads this, pcs, sps
    {
      Slots(pcs[..], sps[..], idx, count)
    }

    constructor ()
      ensures Valid() && fresh(pcs) && fresh(sps) && View() == Empty()
    {
      pcs := new word[SHADOW_STACK_SIZE](_ => 0);
      sps := new word[SHADOW_STACK_SIZE](_ => 0);
      idx, count := 0, 0;
    }

    /** `emu_record_shadow_stack`. */
    method Record(pc: word, sp: word)
      requires Valid()
      modifies this, pcs, sps
      ensures Valid() && View() == old(View()).Record(pc, sp)
    {
      pcs[idx] := pc;
      sps[idx] := sp;
      idx := (idx + 1) % SHADOW_STACK_SIZE;
      if count < SHADOW_STACK_SIZE {
        count := count + 1;
      }
    }

    /** `cortex_emu_get_shadow_stack_pc` and `cortex_emu_get_shadow_stack_sp`. */
    method Get(i: word) returns (pc: word, sp: word)
      requires Valid()
      ensures pc == View().GetPc(i) && sp == View().GetSp(i)
    {
      if i >= count {
        return 0, 0;
      }
      var oldest := if count < SHADOW_STACK_SIZE then 0 else idx;
      var slot := (oldest + i) % SHADOW_STACK_SIZE;
      return pcs[slot], sps[slot];
    }
  }
}
