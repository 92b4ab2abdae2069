/** The shareholder registry of `Profits`: a flag table (`Map<Address,
    Boolean>`, where a missing key is Java's `null`) kept beside an ordered
    list (`ArrayList<Address>`). These functions give the value of the pair
    after each registry operation; the contract's methods are proved to
    produce exactly that value. */
module Shareholders {
  import opened Chain

  datatype Registry = Registry(flags: map<Address, bool>, list: seq<Address>)

  /** What every registry operation keeps: an address flagged active is in
      the list, and every listed address has a flag. The list may still hold
      duplicates, and inactive addresses, after `initialize` lists an address
      twice. */
  ghost predicate Consistent(r: Registry) {
    && (forall a :: a in r.flags && r.flags[a] ==> a in r.list)
    && (forall i :: 0 <= i < |r.list| ==> r.list[i] in r.flags)
  }

  /** `ArrayList.remove(Object)`: delete the first occurrence, if any. A
      list without the value is returned as it is. */
  function RemoveFirst(s: seq<Address>, a: Address): (r: seq<Address>)
    ensures a !in s ==> r == s
  {
    if s == [] then []
    else if s[0] == a then s[1..]
    else [s[0]] + RemoveFirst(s[1..], a)
  }

  /** Removing takes exactly one occurrence of a listed value away and
      leaves the count of every other value as it was. */
  lemma {:induction false} RemoveFirstCount(s: seq<Address>, a: Address)
    ensures a in s ==> |RemoveFirst(s, a)| == |s| - 1
    ensures multiset(RemoveFirst(s, a)) == multiset(s) - multiset{a}
  {
    if s != [] {
      assert s == [s[0]] + s[1..];
      if s[0] != a {
        RemoveFirstCount(s[1..], a);
      }
    }
  }

  /** Only the first occurrence goes: the entries before it and after it
      stay, in their order. */
  lemma {:induction false} RemoveFirstAt(s: seq<Address>, a: Address, k: nat)
    requires k < |s| && s[k] == a
    requires forall j :: 0 <= j < k ==> s[j] != a
    ensures RemoveFirst(s, a) == s[..k] + s[k + 1..]
  {
    if k == 0 {
      assert RemoveFirst(s, a) == s[1..];
    } else {
      var t := s[1..];
      RemoveFirstAt(t, a, k - 1);
      calc {
        RemoveFirst(s, a);
        [s[0]] + RemoveFirst(t, a);
        [s[0]] + (t[..k - 1] + t[k..]);
        ([s[0]] + t[..k - 1]) + t[k..];
        { assert [s[0]] + t[..k - 1] == s[..k]; assert t[k..] == s[k + 1..]; }
        s[..k] + s[k + 1..];
      }
    }
  }

  /** Removing a value that was appended behind a list that lacks it gives
      the list back. */
  lemma {:induction false} RemoveFirstAppended(s: seq<Address>, a: Address)
    requires a !in s
    ensures RemoveFirst(s + [a], a) == s
  {
    RemoveFirstAt(s + [a], a, |s|);
    assert (s + [a])[..|s|] == s;
    assert (s + [a])[|s| + 1..] == [];
  }

  /** `initialize` in `Profits.java`: every given address is flagged active
      and appended, in order; nothing stops an address from being listed
      twice, or a second call. */
  function Initialize(r: Registry, addrs: seq<Address>): (r': Registry)
    ensures r'.list == r.list + addrs
    ensures forall a :: a in addrs ==> a in r'.flags && r'.flags[a]
    ensures forall a :: a !in addrs ==> (a in r'.flags <==> a in r.flags) && (a in r.flags ==> r'.flags[a] == r.flags[a])
    ensures Consistent(r) ==> Consistent(r')
  {
    Registry(r.flags + map a | a in addrs :: true, r.list + addrs)
  }

  /** `addShareholder`: only an address that has a flag and is inactive can
      be added; it is flagged active and appended to the list. */
  function Add(r: Registry, a: Address): (res: Result<Registry>)
    ensures a !in r.flags ==> res == Err(InvalidShareholder)
    ensures a in r.flags && r.flags[a] ==> res == Err(AlreadyShareholder)
    ensures res.Ok? <==> a in r.flags && !r.flags[a]
    ensures res.Ok? ==> res.value.list == r.list + [a] && res.value.flags == r.flags[a := true]
    ensures res.Ok? && Consistent(r) ==> Consistent(res.value)
  {
    if a !in r.flags then Err(InvalidShareholder)
    else if r.flags[a] then Err(AlreadyShareholder)
    else Ok(Registry(r.flags[a := true], r.list + [a]))
  }

  /** `removeShareholder`: only an active address can be removed; it is
      flagged inactive and its first occurrence leaves the list. */
  function Remove(r: Registry, a: Address): (res: Result<Registry>)
    ensures res.Ok? <==> a in r.flags && r.flags[a]
    ensures res.Err? ==> res.error == NotShareholder
    ensures res.Ok? ==> res.value.flags == r.flags[a := false]
    ensures res.Ok? ==> multiset(res.value.list) == multiset(r.list) - multiset{a}
  {
    if a !in r.flags then Err(NotShareholder)
    else if !r.flags[a] then Err(NotShareholder)
    else
      RemoveFirstCount(r.list, a);
      Ok(Registry(r.flags[a := false], RemoveFirst(r.list, a)))
  }

  /** Removing keeps the registry consistent. */
  lemma RemoveConsistent(r: Registry, a: Address)
    requires Consistent(r) && Remove(r, a).Ok?
    ensures Consistent(Remove(r, a).value)
  {
    var r' := Remove(r, a).value;
    forall b | b in r'.flags && r'.flags[b]
      ensures b in r'.list
    {
      assert b != a && b in r.list;
      assert b in multiset(r.list);
      assert b in multiset(r'.list);
    }
    forall i | 0 <= i < |r'.list|
      ensures r'.list[i] in r'.flags
    {
      assert r'.list[i] in multiset(r'.list);
      assert r'.list[i] in multiset(r.list);
      assert r'.list[i] in r.list;
    }
  }

  /** Adding an inactive address that is not listed, then removing it again,
      restores both the flag table and the list exactly. */
  lemma AddThenRemove(r: Registry, a: Address)
    requires a in r.flags && !r.flags[a] && a !in r.list
    ensures Add(r, a).Ok? && Remove(Add(r, a).value, a) == Ok(r)
  {
    RemoveFirstAppended(r.list, a);
    assert r.flags[a := true][a := false] == r.flags;
  }
}
