/** The actions of one interrupt line: which requests join its chain, and calling them. */
module IrqChain {
  import opened Bits
  import opened BitSets

  const SA_SHIRQ: nat := 0x0400_0000

  /** `struct irqaction`. */
  class IrqAction {
    const flags: nat
    var next: IrqAction?
    var irq: int
    var dir: object?

    constructor (flags: nat)
      ensures this.flags == flags && next == null
    {
      this.flags := flags;
      next, irq, dir := null, 0, null;
    }
  }

  predicate Shares(a: IrqAction)
  {
    And(a.flags, SA_SHIRQ) != 0
  }

  lemma ShareFlag()
    ensures SA_SHIRQ == Pow2(26)
  {
    assert Pow2(8) == 256;
    Pow2Split(8, 8);
    assert Pow2(10) == 1024;
    Pow2Split(16, 10);
  }

  /** The test of `setup_irq`: both actions allow sharing. */
  lemma BothShare(a: IrqAction, b: IrqAction)
    ensures And(And(a.flags, b.flags), SA_SHIRQ) != 0 <==> Shares(a) && Shares(b)
  {
    ShareFlag();
    hide And, Bit, Pow2;
    AndPow2(a.flags, 26);
    AndPow2(b.flags, 26);
    AndPow2(And(a.flags, b.flags), 26);
    BitAnd(a.flags, b.flags, 26);
  }

  // ----- what requests add up to -----

  /** Whether a request to put a on a line with the given chain is accepted. */
  predicate Accepts(chain: seq<IrqAction>, a: IrqAction)
  {
    chain == [] || (Shares(chain[0]) && Shares(a))
  }

  /** The chain after requests made one after another on an empty line. */
  function Requested(requests: seq<IrqAction>): seq<IrqAction>
    decreases |requests|
  {
    if requests == [] then [] else
      var chain := Requested(requests[..|requests| - 1]);
      var a := requests[|requests| - 1];
      if Accepts(chain, a) then chain + [a] else chain
  }

  /** The actions that allow sharing, in order. */
  function Sharing(s: seq<IrqAction>): seq<IrqAction>
    decreases |s|
  {
    if s == [] then [] else
      Sharing(s[..|s| - 1]) + if Shares(s[|s| - 1]) then [s[|s| - 1]] else []
  }

  lemma {:induction false} SharingShares(s: seq<IrqAction>)
    ensures forall a :: a in Sharing(s) <==> a in s && Shares(a)
  {
    if s == [] {
    } else {
      var n := |s| - 1;
      SharingShares(s[..n]);
      assert s == s[..n] + [s[n]];
    }
  }

  /** A line belongs to the first action requested on it; the later ones that join are, in
      registration order, exactly those that allow sharing, and none unless the first does. */
  lemma {:induction false} RequestedChain(requests: seq<IrqAction>)
    requires requests != []
    ensures Requested(requests) == [requests[0]] + if Shares(requests[0]) then Sharing(requests[1..]) else []
  {
    hide Shares;
    var n := |requests| - 1;
    if n == 0 {
      assert requests[..0] == [];
    } else {
      RequestedChain(requests[..n]);
      assert requests[1..][..n - 1] == requests[..n][1..];
      var rest := Sharing(requests[..n][1..]);
      assert [requests[0]] + rest + [requests[n]] == [requests[0]] + (rest + [requests[n]]);
      assert [requests[0]] + rest == [requests[0]] + (rest + []);
    }
  }

  /** Every member of a chain of two or more allows sharing. */
  lemma RequestedShare(requests: seq<IrqAction>)
    requires |Requested(requests)| >= 2
    ensures forall a :: a in Requested(requests) ==> Shares(a)
  {
    hide Shares;
    RequestedChain(requests);
    SharingShares(requests[1..]);
  }

  lemma RequestedOne(requests: seq<IrqAction>, a: IrqAction)
    ensures Requested(requests + [a]) ==
              if Accepts(Requested(requests), a) then Requested(requests) + [a] else Requested(requests)
  {
    assert (requests + [a])[..|requests|] == requests;
  }

  // ----- the chain in memory -----

  ghost function Following(chain: seq<IrqAction>, i: int): IrqAction?
    requires -1 <= i < |chain|
  {
    if i + 1 < |chain| then chain[i + 1] else null
  }

  /** The links of a chain: NULL-terminated, and each action on it once. */
  ghost predicate Linked(action: IrqAction?, chain: seq<IrqAction>)
    reads chain`next
  {
    && action == Following(chain, -1)
    && (forall i :: 0 <= i < |chain| ==> chain[i].next == Following(chain, i))
    && (forall i, j :: 0 <= i < j < |chain| ==> chain[i] != chain[j])
  }

  /** The OR of what the actions of a chain return. */
  function OrAll(chain: seq<IrqAction>, result: IrqAction -> nat): nat
    decreases |chain|
  {
    if chain == [] then 0 else Or(OrAll(chain[..|chain| - 1], result), result(chain[|chain| - 1]))
  }

  /** A bit of the OR is set exactly if some action of the chain returned it set. */
  lemma {:induction false} OrAllBit(chain: seq<IrqAction>, result: IrqAction -> nat, k: nat)
    ensures Bit(OrAll(chain, result), k) <==> exists a :: a in chain && Bit(result(a), k)
  {
    hide Bit, Or;
    if chain == [] {
      BitZero(k);
    } else {
      var n := |chain| - 1;
      OrAllBit(chain[..n], result, k);
      BitOr(OrAll(chain[..n], result), result(chain[n]), k);
      assert chain == chain[..n] + [chain[n]];
      if Bit(result(chain[n]), k) {
        assert chain[n] in chain;
      }
    }
  }

  lemma OrAllStep(chain: seq<IrqAction>, result: IrqAction -> nat, i: nat)
    requires i < |chain|
    ensures OrAll(chain[..i + 1], result) == Or(OrAll(chain[..i], result), result(chain[i]))
    ensures chain[..i] + [chain[i]] == chain[..i + 1]
  {
    assert chain[..i + 1][..i] == chain[..i];
  }

  /** `handle_IRQ_event`: call every action once, in the order of the chain. `result` stands for
      what each handler returns for this event. */
  method HandleIrqEvent(action: IrqAction, result: IrqAction -> nat, ghost chain: seq<IrqAction>)
    returns (retval: nat, called: seq<IrqAction>)
    requires Linked(action, chain)
    ensures called == chain
    ensures retval == OrAll(chain, result)
  {
    hide Or;
    retval, called := 0, [];
    var a: IrqAction? := action;
    ghost var i := 0;
    while true
      invariant 0 <= i < |chain| && a == chain[i]
      invariant called == chain[..i] && retval == OrAll(chain[..i], result)
      decreases |chain| - i
    {
      var ret := result(a);
      retval := Or(retval, ret);
      called := called + [a];
      OrAllStep(chain, result, i);
      a := a.next;
      i := i + 1;
      if a == null {
        assert chain[..i] == chain;
        break;
      }
    }
  }

  /** The walk of `setup_irq` to the end of a chain: the action whose next pointer ends it. */
  method LastAction(action: IrqAction, ghost chain: seq<IrqAction>) returns (last: IrqAction)
    requires Linked(action, chain)
    ensures last == chain[|chain| - 1]
  {
    last := action;
    var following: IrqAction? := last.next;
    ghost var i := 0;
    while following != null
      invariant 0 <= i < |chain| && last == chain[i] && following == last.next
      decreases |chain| - i
    {
      last := following;
      following := last.next;
      i := i + 1;
    }
  }
}
