/**
 * `Retirees`, the thread-local buffer of pointers retired under hazard pointers. A
 * retired pointer is freed by `collect` once no thread protects it. The hazard set that
 * `Hazards::all_hazards` would return is passed in as a parameter, and each call of an
 * entry's `free::<T>` is recorded, in order, in the ghost log `freed`.
 */
module Retire {

  import opened Bits

  /** `Retirees::THRESHOLD`: `retire` calls `collect` once the buffer grows longer than this. */
  const THRESHOLD: nat := 64

  /**
   * A `Shared<T>`: a word holding the address of a `T` whose low bits, below the alignment
   * of `T`, carry a tag; `dropper` names the `free::<T>` that frees such an object.
   */
  datatype Shared = Shared(word: nat, align: nat, dropper: nat)

  /** An entry of `inner`: an untagged address and the `free::<T>` that frees it. */
  datatype Retired = Retired(addr: nat, dropper: nat)

  /**
   * `with_tag(0).into_usize()`: the word with its tag cleared, that is the multiple of
   * `align` at or just below it.
   */
  function WithTagZero(word: nat, align: nat): (r: nat)
    requires align >= 1
    ensures r <= word < r + align
  {
    var q, t := word / align, word % align;
    assert word == align * q + t && t < align;
    align * q
  }

  /** The address `retire` stores carries tag zero, and the tag it dropped was the word's. */
  lemma UntaggedHasNoTag(word: nat, align: nat)
    requires align >= 1
    ensures WithTagZero(word, align) % align == 0
    ensures word - WithTagZero(word, align) == word % align
  {
    var q, t := QuotientRemainder(word, align);
    DivUnique(align * q, align, q, 0);
  }

  // ---------------------------------------------------------------------------------------
  // What `collect` computes. Entries are popped from the back of `inner`: protected ones
  // are pushed onto a new buffer, which therefore ends up in reverse order, and the others
  // are freed in the order they are popped.

  function Last<T>(s: seq<T>): T
    requires |s| > 0
  {
    s[|s| - 1]
  }

  function Front<T>(s: seq<T>): seq<T>
    requires |s| > 0
  {
    s[..|s| - 1]
  }

  /** The entries `collect` keeps, in the order it pushes them onto the new buffer. */
  function KeptOf(s: seq<Retired>, hazards: set<nat>): seq<Retired>
  {
    if |s| == 0 then []
    else (if Last(s).addr in hazards then [Last(s)] else []) + KeptOf(Front(s), hazards)
  }

  /** The entries `collect` frees, in the order it frees them. */
  function FreedOf(s: seq<Retired>, hazards: set<nat>): seq<Retired>
  {
    if |s| == 0 then []
    else (if Last(s).addr in hazards then [] else [Last(s)]) + FreedOf(Front(s), hazards)
  }

  /** The entries whose address is protected, in buffer order: a reference filter. */
  function Protected(s: seq<Retired>, hazards: set<nat>): seq<Retired>
  {
    if |s| == 0 then []
    else Protected(Front(s), hazards) + (if Last(s).addr in hazards then [Last(s)] else [])
  }

  function Reverse<T>(s: seq<T>): seq<T>
  {
    if |s| == 0 then [] else [Last(s)] + Reverse(Front(s))
  }

  lemma SplitLast<T>(s: seq<T>)
    requires |s| > 0
    ensures s == Front(s) + [Last(s)]
  {
  }

  /** `collect` neither loses nor duplicates an entry: each is either kept or freed, once. */
  lemma {:induction false} CollectConserves(s: seq<Retired>, hazards: set<nat>)
    ensures multiset(KeptOf(s, hazards)) + multiset(FreedOf(s, hazards)) == multiset(s)
  {
    if |s| > 0 {
      CollectConserves(Front(s), hazards);
      SplitLast(s);
    }
  }

  /** Kept entries are exactly the protected ones; freed entries exactly the unprotected ones. */
  lemma {:induction false} CollectSeparates(s: seq<Retired>, hazards: set<nat>)
    ensures forall e :: e in KeptOf(s, hazards) <==> e in s && e.addr in hazards
    ensures forall e :: e in FreedOf(s, hazards) <==> e in s && e.addr !in hazards
  {
    if |s| > 0 {
      CollectSeparates(Front(s), hazards);
      SplitLast(s);
    }
  }

  /** The new buffer holds the protected entries in reverse order. */
  lemma {:induction false} KeptIsReversed(s: seq<Retired>, hazards: set<nat>)
    ensures KeptOf(s, hazards) == Reverse(Protected(s, hazards))
  {
    if |s| > 0 {
      KeptIsReversed(Front(s), hazards);
      var p := Protected(Front(s), hazards);
      if Last(s).addr in hazards {
        assert Last(p + [Last(s)]) == Last(s) && Front(p + [Last(s)]) == p;
      } else {
        assert Protected(s, hazards) == p;
      }
    }
  }

  /** With no hazard at all, `collect` frees every entry, from the back, and keeps none. */
  lemma {:induction false} CollectUnprotected(s: seq<Retired>)
    ensures KeptOf(s, {}) == [] && FreedOf(s, {}) == Reverse(s)
  {
    if |s| > 0 {
      CollectUnprotected(Front(s));
    }
  }

  /** `collect` frees nothing when every entry is protected. */
  lemma {:induction false} AllProtectedNoneFreed(s: seq<Retired>, hazards: set<nat>)
    requires forall e :: e in s ==> e.addr in hazards
    ensures FreedOf(s, hazards) == [] && KeptOf(s, hazards) == Reverse(s)
  {
    if |s| > 0 {
      assert Last(s) in s;
      AllProtectedNoneFreed(Front(s), hazards);
    }
  }

  /** A second `collect` against the same hazards frees nothing. */
  lemma CollectTwice(s: seq<Retired>, hazards: set<nat>)
    ensures FreedOf(KeptOf(s, hazards), hazards) == []
  {
    CollectSeparates(s, hazards);
    AllProtectedNoneFreed(KeptOf(s, hazards), hazards);
  }

  /** One round of `collect`'s loop, kept side: a protected last entry moves onto the new buffer. */
  lemma PopKept(s: seq<Retired>, hazards: set<nat>, kept: seq<Retired>)
    requires |s| > 0
    ensures Last(s).addr in hazards ==> (kept + [Last(s)]) + KeptOf(Front(s), hazards) == kept + KeptOf(s, hazards)
    ensures Last(s).addr !in hazards ==> kept + KeptOf(Front(s), hazards) == kept + KeptOf(s, hazards)
  {
    var d, k := Last(s), KeptOf(Front(s), hazards);
    if d.addr in hazards {
      assert KeptOf(s, hazards) == [d] + k;
      assert (kept + [d]) + k == kept + ([d] + k);
    } else {
      assert KeptOf(s, hazards) == [] + k == k;
    }
  }

  /** One round of `collect`'s loop, freed side: an unprotected last entry is freed. */
  lemma PopFreed(s: seq<Retired>, hazards: set<nat>, freed: seq<Retired>)
    requires |s| > 0
    ensures Last(s).addr in hazards ==> freed + FreedOf(Front(s), hazards) == freed + FreedOf(s, hazards)
    ensures Last(s).addr !in hazards ==> (freed + [Last(s)]) + FreedOf(Front(s), hazards) == freed + FreedOf(s, hazards)
  {
    var d, f := Last(s), FreedOf(Front(s), hazards);
    if d.addr in hazards {
      assert FreedOf(s, hazards) == [] + f == f;
    } else {
      assert FreedOf(s, hazards) == [d] + f;
      assert (freed + [d]) + f == freed + ([d] + f);
    }
  }

  /**
   * One round of `Drop`'s loop, with the log of earlier frees: no entry is lost or
   * duplicated, and a round that sees no hazard leaves nothing behind.
   */
  lemma CollectRound(log: seq<Retired>, s: seq<Retired>, hazards: set<nat>)
    ensures multiset(log + FreedOf(s, hazards)) + multiset(KeptOf(s, hazards)) == multiset(log) + multiset(s)
    ensures hazards == {} ==> KeptOf(s, hazards) == []
  {
    CollectConserves(s, hazards);
    CollectUnprotected(s);
  }

  class Retirees {
    /** The retired entries not yet freed. */
    var inner: seq<Retired>
    /** Every `free::<T>` call made so far, in order. */
    ghost var freed: seq<Retired>

    /** `Retirees::new`: nothing retired, nothing freed. */
    constructor ()
      ensures inner == [] && freed == []
    {
      inner := [];
      freed := [];
    }

    /**
     * `retire`: push the pointer with its tag cleared, then `collect` against `hazards`
     * when the buffer has grown past THRESHOLD.
     */
    method Retire(pointer: Shared, hazards: set<nat>)
      requires pointer.align >= 1
      modifies this
      ensures var pushed := old(inner) + [Retired(WithTagZero(pointer.word, pointer.align), pointer.dropper)];
              if |pushed| > THRESHOLD
              then inner == KeptOf(pushed, hazards) && freed == old(freed) + FreedOf(pushed, hazards)
              else inner == pushed && freed == old(freed)
      ensures |inner| <= THRESHOLD || forall e :: e in inner ==> e.addr in hazards
    {
      inner := inner + [Retired(WithTagZero(pointer.word, pointer.align), pointer.dropper)];
      if |inner| > THRESHOLD {
        Collect(hazards);
        CollectSeparates(old(inner) + [Retired(WithTagZero(pointer.word, pointer.align), pointer.dropper)], hazards);
      }
    }

    /**
     * `collect`: pop every entry; push the protected ones onto a new buffer and free the
     * others; the new buffer becomes `inner`.
     */
    method Collect(hazards: set<nat>)
      modifies this
      ensures inner == KeptOf(old(inner), hazards)
      ensures freed == old(freed) + FreedOf(old(inner), hazards)
    {
      var newVec: seq<Retired> := [];
      while |inner| > 0
        invariant newVec + KeptOf(inner, hazards) == KeptOf(old(inner), hazards)
        invariant freed + FreedOf(inner, hazards) == old(freed) + FreedOf(old(inner), hazards)
        decreases |inner|
      {
        PopKept(inner, hazards, newVec);
        PopFreed(inner, hazards, freed);
        var data := inner[|inner| - 1];
        inner := inner[..|inner| - 1];
        if data.addr in hazards {
          newVec := newVec + [data];
        } else {
          freed := freed + [data];
        }
      }
      inner := newVec;
    }

    /**
     * `Drop::drop`: `collect` until nothing is left. `rounds` lists the hazard sets the
     * successive rounds see; the loop ends once every pointer is unprotected, which the
     * last of them stands for.
     */
    method Drop(rounds: seq<set<nat>>)
      requires |rounds| > 0 && rounds[|rounds| - 1] == {}
      modifies this
      ensures inner == []
      ensures multiset(freed) == old(multiset(freed) + multiset(inner))
    {
      var i := 0;
      while |inner| > 0
        invariant i < |rounds|
        invariant multiset(freed) + multiset(inner) == old(multiset(freed) + multiset(inner))
        decreases |rounds| - i, |inner|
      {
        CollectRound(freed, inner, rounds[i]);
        Collect(rounds[i]);
        if i < |rounds| - 1 {
          i := i + 1;
        }
      }
    }
  }
}
