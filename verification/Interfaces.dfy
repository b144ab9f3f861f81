/** Network interfaces and the bind address. */
module Interfaces {
  import opened GoText
  import opened Slices

  datatype Interface = Interface(index: int, name: string)

  /** strings.EqualFold(name, "lo"): no other character folds to one of these. */
  predicate IsLoopback(n: Interface) {
    |n.name| == 2 && n.name[0] in {'l', 'L'} && n.name[1] in {'o', 'O'}
  }

  lemma LoopbackNames(n: Interface)
    ensures IsLoopback(n) <==> n.name in {"lo", "lO", "Lo", "LO"}
  {
    if IsLoopback(n) {
      assert n.name == [n.name[0], n.name[1]];
    }
  }

  function NonLoopback(networks: seq<Interface>): (r: seq<Interface>)
    ensures forall n :: n in r <==> n in networks && !IsLoopback(n)
  {
    if networks == [] then [] else
      var rest := NonLoopback(networks[..|networks| - 1]);
      if IsLoopback(networks[|networks| - 1]) then rest else rest + [networks[|networks| - 1]]
  }

  function Loopbacks(networks: seq<Interface>): (n: nat)
    ensures n <= |networks|
  {
    if networks == [] then 0 else
      Loopbacks(networks[..|networks| - 1]) + if IsLoopback(networks[|networks| - 1]) then 1 else 0
  }

  /** One of the last `Loopbacks - 1` interfaces is a loopback. */
  ghost predicate LoopbackInTail(networks: seq<Interface>) {
    exists j :: 0 <= j < |networks| && |networks| - j < Loopbacks(networks) && IsLoopback(networks[j])
  }

  /** What the swap-remove loop leaves in the slice, or the index panic. */
  datatype Outcome = Kept(networks: seq<Interface>) | Panic

  lemma {:induction false} LoopbacksGrow(networks: seq<Interface>, i: nat)
    requires i <= |networks|
    ensures Loopbacks(networks[..i]) <= Loopbacks(networks)
    ensures i < |networks| && IsLoopback(networks[i]) ==> Loopbacks(networks[..i]) < Loopbacks(networks)
  {
    if i < |networks| {
      var front := networks[..|networks| - 1];
      assert front[..i] == networks[..i];
      LoopbacksGrow(front, i);
    } else {
      assert networks[..i] == networks;
    }
  }

  /** With a loopback in the tail some loopback is met when the slice is already shorter than its index. */
  lemma {:induction false} TailIsMet(networks: seq<Interface>, j: nat) returns (i: nat)
    requires j < |networks| && IsLoopback(networks[j]) && |networks| - j < Loopbacks(networks)
    ensures i < |networks| && !InBounds(networks, i)
    decreases |networks| - j
  {
    if k: nat :| j < k < |networks| && IsLoopback(networks[k]) {
      i := TailIsMet(networks, k);
    } else {
      i := j;
      NoneAfter(networks, j);
    }
  }

  lemma {:induction false} NoneAfter(networks: seq<Interface>, j: nat)
    requires j < |networks| && IsLoopback(networks[j])
    requires forall k :: j < k < |networks| ==> !IsLoopback(networks[k])
    ensures Loopbacks(networks) == Loopbacks(networks[..j]) + 1
  {
    var front := networks[..|networks| - 1];
    if j < |networks| - 1 {
      assert front[..j] == networks[..j];
      NoneAfter(front, j);
    } else {
      assert networks[..j] == front;
    }
  }

  /** The slice holds the other interfaces seen so far and all that are still to come. */
  ghost predicate Holds(slice: seq<Interface>, all: seq<Interface>, i: nat)
    requires i <= |all|
  {
    multiset(slice) == multiset(NonLoopback(all[..i])) + multiset(all[i..])
  }

  lemma HoldsAtEnds(slice: seq<Interface>, all: seq<Interface>)
    ensures Holds(all, all, 0)
    ensures Holds(slice, all, |all|) ==> multiset(slice) == multiset(NonLoopback(all))
  {
    assert all[0..] == all && all[..|all|] == all;
  }

  lemma FirstOfRest(all: seq<Interface>, i: nat)
    requires i < |all|
    ensures multiset(all[i..]) == multiset{all[i]} + multiset(all[i + 1..])
  {
    assert all[i..] == [all[i]] + all[i + 1..];
  }

  lemma OthersNext(all: seq<Interface>, i: nat)
    requires i < |all|
    ensures IsLoopback(all[i]) ==> NonLoopback(all[..i + 1]) == NonLoopback(all[..i])
    ensures !IsLoopback(all[i]) ==>
      multiset(NonLoopback(all[..i + 1])) == multiset(NonLoopback(all[..i])) + multiset{all[i]}
  {
    assert all[..i + 1][..i] == all[..i];
  }

  /** Moving `n` from the rest to the others seen, or dropping it from both sides. */
  lemma Rebalance(slice: multiset<Interface>, seen: multiset<Interface>, n: Interface, rest: multiset<Interface>)
    requires slice == seen + (multiset{n} + rest)
    ensures slice == (seen + multiset{n}) + rest
    ensures slice - multiset{n} == seen + rest
  {
  }

  lemma HoldsNext(slice: seq<Interface>, all: seq<Interface>, i: nat, after: seq<Interface>)
    requires i < |all| && Holds(slice, all, i)
    requires if IsLoopback(all[i]) then multiset(after) == multiset(slice) - multiset{all[i]} else after == slice
    ensures Holds(after, all, i + 1)
  {
    FirstOfRest(all, i);
    OthersNext(all, i);
    Rebalance(multiset(slice), multiset(NonLoopback(all[..i])), all[i], multiset(all[i + 1..]));
  }

  /** Loopback `k`, when its turn comes, is still inside the shrunk slice. */
  ghost predicate InBounds(all: seq<Interface>, k: nat)
    requires k < |all|
  {
    IsLoopback(all[k]) ==> k < |all| - Loopbacks(all[..k])
  }

  lemma NeverOutOfBounds(all: seq<Interface>)
    requires forall k :: 0 <= k < |all| ==> InBounds(all, k)
    ensures !LoopbackInTail(all)
  {
    if j :| 0 <= j < |all| && |all| - j < Loopbacks(all) && IsLoopback(all[j]) {
      var i := TailIsMet(all, j);
      assert false;
    }
  }

  lemma LoopbacksNext(all: seq<Interface>, i: nat)
    requires i < |all|
    ensures Loopbacks(all[..i + 1]) == Loopbacks(all[..i]) + if IsLoopback(all[i]) then 1 else 0
  {
    assert all[..i + 1][..i] == all[..i];
  }

  /** The array `s` and the slice length `m` when the range loop over `all` reaches index `i`. */
  ghost predicate Shape(s: seq<Interface>, m: int, all: seq<Interface>, i: nat) {
    && i <= |all| == |s| && 0 <= m <= |s| && m == |all| - Loopbacks(all[..i])
    && (forall j :: i <= j < |all| ==> s[j] == all[j])
    && (forall k :: 0 <= k < i ==> InBounds(all, k))
  }

  ghost predicate Reached(s: seq<Interface>, m: int, all: seq<Interface>, i: nat) {
    Shape(s, m, all, i) && Holds(s[..m], all, i)
  }

  lemma ReachedStart(all: seq<Interface>)
    ensures Reached(all, |all|, all, 0)
  {
    HoldsAtEnds(all, all);
    assert all[..0] == [] && all[..|all|] == all;
  }

  lemma ReachedOther(s: seq<Interface>, m: int, all: seq<Interface>, i: nat)
    requires i < |all| && Reached(s, m, all, i) && !IsLoopback(s[i])
    ensures Reached(s, m, all, i + 1)
  {
    LoopbacksNext(all, i);
    HoldsNext(s[..m], all, i, s[..m]);
  }

  lemma ShapeLoopback(s: seq<Interface>, m: int, all: seq<Interface>, i: nat)
    requires i < |all| && Shape(s, m, all, i) && IsLoopback(s[i])
    ensures i >= m ==> LoopbackInTail(all)
    ensures i < m ==> Shape(s[i := s[m - 1]], m - 1, all, i + 1)
  {
    LoopbacksNext(all, i);
    LoopbacksGrow(all, i);
  }

  lemma ReachedLoopback(s: seq<Interface>, m: int, all: seq<Interface>, i: nat)
    requires i < |all| && Reached(s, m, all, i) && IsLoopback(s[i])
    ensures i >= m ==> LoopbackInTail(all)
    ensures i < m ==> Reached(s[i := s[m - 1]], m - 1, all, i + 1)
  {
    ShapeLoopback(s, m, all, i);
    if i < m {
      HoldsRemoved(s, m, all, i);
    }
  }

  lemma HoldsRemoved(s: seq<Interface>, m: nat, all: seq<Interface>, i: nat)
    requires i < m <= |s| == |all| && Holds(s[..m], all, i) && s[i] == all[i] && IsLoopback(s[i])
    ensures Holds(s[i := s[m - 1]][..m - 1], all, i + 1)
  {
    var after := s[i := s[m - 1]][..m - 1];
    SwapRemove(s[..m], after, i);
    HoldsNext(s[..m], all, i, after);
  }

  lemma ReachedEnd(s: seq<Interface>, m: int, all: seq<Interface>)
    requires Reached(s, m, all, |all|)
    ensures multiset(s[..m]) == multiset(NonLoopback(all)) && !LoopbackInTail(all)
  {
    HoldsAtEnds(s[..m], all);
    NeverOutOfBounds(all);
  }

  /**
   * The loop ranges over the original slice while it shrinks a slice of the same array. It indexes out of range
   * exactly when a loopback stands in the tail; otherwise what is left is a permutation of the other interfaces.
   */
  method NonLoopbackInterfaces(a: array<Interface>) returns (r: Outcome)
    modifies a
    ensures r.Panic? <==> LoopbackInTail(old(a[..]))
    ensures r.Kept? ==> multiset(r.networks) == multiset(NonLoopback(old(a[..])))
  {
    var m := a.Length;
    ghost var all := a[..];
    ReachedStart(all);
    for i := 0 to a.Length
      invariant 0 <= m <= a.Length && Reached(a[..], m, all, i)
    {
      if IsLoopback(a[i]) {
        ReachedLoopback(a[..], m, all, i);
        if i >= m {
          return Panic;
        }
        a[i] := a[m - 1];
        m := m - 1;
      } else {
        ReachedOther(a[..], m, all, i);
      }
    }
    ReachedEnd(a[..], m, all);
    assert a[..][..m] == a[..m];
    return Kept(a[..m]);
  }

  /** With at most one loopback, as on real hosts, the loop never panics. */
  lemma OneLoopbackIsFine(networks: seq<Interface>)
    requires Loopbacks(networks) <= 1
    ensures !LoopbackInTail(networks)
  {
  }

  /** Two interfaces that fold to "lo" can panic: the stale last slot is visited again. */
  lemma TwoLoopbacksCanPanic(eth: Interface)
    requires !IsLoopback(eth)
    ensures LoopbackInTail([Interface(1, "lo"), eth, Interface(3, "LO")])
  {
    var lo, upper := Interface(1, "lo"), Interface(3, "LO");
    var all := [lo, eth, upper];
    assert [lo][..0] == [] && Loopbacks([lo]) == 1;
    assert [lo, eth][..1] == [lo] && Loopbacks([lo, eth]) == 1;
    assert all[..2] == [lo, eth] && Loopbacks(all) == 2;
    assert IsLoopback(all[2]) && |all| - 2 < Loopbacks(all);
  }

  // ---- The bind address

  /** The addresses of each interface; empty where the resolver fails, whose error the code ignores. */
  type Resolver = Interface -> seq<string>

  predicate Matches(bindingAddress: string, address: string) {
    bindingAddress == address || bindingAddress == Before(address, '/')
  }

  /** An address is accepted in full or without its mask, and in no other form. */
  lemma AcceptedForms(bindingAddress: string, address: string)
    ensures Matches(bindingAddress, address)
       <==> bindingAddress == address || ('/' !in bindingAddress && bindingAddress + "/" <= address)
  {
    if '/' !in bindingAddress && bindingAddress + "/" <= address {
      assert address == bindingAddress + "/" + address[|bindingAddress| + 1..];
      CutAt(bindingAddress, '/', address[|bindingAddress| + 1..]);
    }
  }

  ghost predicate AnyMatch(addrs: seq<string>, bindingAddress: string) {
    exists a :: a in addrs && Matches(bindingAddress, a)
  }

  /** Some interface has the address, with or without its mask. */
  ghost predicate IsBindable(resolver: Resolver, networks: seq<Interface>, bindingAddress: string) {
    exists n :: n in networks && AnyMatch(resolver(n), bindingAddress)
  }

  method CheckValidBindingAddress(resolver: Resolver, networks: seq<Interface>, bindingAddress: string)
    returns (ok: bool)
    ensures ok <==> IsBindable(resolver, networks, bindingAddress)
  {
    ok := false;
    for i := 0 to |networks|
      invariant ok <==> IsBindable(resolver, networks[..i], bindingAddress)
    {
      var addrs := resolver(networks[i]);
      ghost var found := ok;
      for j := 0 to |addrs|
        invariant ok <==> found || AnyMatch(addrs[..j], bindingAddress)
      {
        assert addrs[..j + 1] == addrs[..j] + [addrs[j]];
        if Matches(bindingAddress, addrs[j]) {
          ok := true;
          assert addrs[j] in addrs[..j + 1];
        }
      }
      assert addrs[..|addrs|] == addrs && networks[..i + 1] == networks[..i] + [networks[i]];
      assert AnyMatch(addrs, bindingAddress) ==> networks[i] in networks[..i + 1];
    }
    assert networks[..|networks|] == networks;
  }

  /** The value SaveBindAddressConfiguration writes. */
  function SavedBindAddress(bindAddress: string): string {
    if '/' in bindAddress then Before(bindAddress, '/') else bindAddress
  }

  lemma SameMembers(a: seq<Interface>, b: seq<Interface>)
    requires multiset(a) == multiset(b)
    ensures forall n :: n in a <==> n in b
  {
    forall n ensures n in a <==> n in b {
      assert n in a <==> n in multiset(a);
      assert n in b <==> n in multiset(b);
    }
  }

  datatype Choice = Saved(bindAddress: string) | Refused | Panicked

  /**
   * The steps every setup begins with: a bind address gets through exactly when some interface that is no loopback
   * has it, and is then saved as the host part of an address of such an interface.
   */
  method ChooseBindAddress(a: array<Interface>, resolver: Resolver, bindAddress: string) returns (r: Choice)
    modifies a
    ensures r.Panicked? <==> LoopbackInTail(old(a[..]))
    ensures r.Saved? <==> !LoopbackInTail(old(a[..])) && IsBindable(resolver, NonLoopback(old(a[..])), bindAddress)
    ensures r.Saved? ==> exists n, address ::
      && n in old(a[..]) && !IsLoopback(n) && address in resolver(n)
      && Matches(bindAddress, address) && r.bindAddress == Before(address, '/')
  {
    ghost var all := a[..];
    var kept := NonLoopbackInterfaces(a);
    if kept.Panic? {
      return Panicked;
    }
    SameMembers(kept.networks, NonLoopback(all));
    var ok := CheckValidBindingAddress(resolver, kept.networks, bindAddress);
    if !ok {
      return Refused;
    }
    SavedIsHostPart(resolver, kept.networks, bindAddress);
    return Saved(SavedBindAddress(bindAddress));
  }

  /** Validation and saving agree: an accepted address is saved without its mask. */
  lemma SavedIsHostPart(resolver: Resolver, networks: seq<Interface>, bindAddress: string)
    requires IsBindable(resolver, networks, bindAddress)
    ensures '/' !in SavedBindAddress(bindAddress)
    ensures exists n, address ::
      && n in networks && address in resolver(n)
      && Matches(bindAddress, address) && SavedBindAddress(bindAddress) == Before(address, '/')
  {
    var n :| n in networks && AnyMatch(resolver(n), bindAddress);
    var address :| address in resolver(n) && Matches(bindAddress, address);
    assert SavedBindAddress(bindAddress) == Before(address, '/');
  }
}
