/**
 * Accounts of the vault and the pure list functions `SecureStorage` applies to
 * them: the DTO mapping of the write and read paths, the stable sort by order,
 * the largest order, the first index and first account with a public key, and
 * the dense renumbering after a removal.
 */
module Accounts {
  import opened Wrappers
  import Base64

  type byte = Base64.byte

  /** An account as callers see it: raw private-key bytes. */
  datatype Account = Account(privateKey: seq<byte>, publicKey: string, name: Option<string>, order: int)

  /** The persisted record: the private key as text (Base64, or Base58 before migration). */
  datatype AccountDto = AccountDto(privateKey: string, publicKey: string, name: Option<string>, order: int)

  /** A decoder of the legacy Base58 text; None when the text is not Base58. */
  type LegacyDecoder = string -> Option<seq<byte>>

  // ---------------------------------------------------------------------------
  // Write path: one DTO per account, key encoded as Base64.

  function ToDto(a: Account): (d: AccountDto)
    ensures d.publicKey == a.publicKey && d.name == a.name && d.order == a.order
    ensures Base64.Decode(d.privateKey) == Some(a.privateKey)
  {
    Base64.DecodeEncode(a.privateKey);
    AccountDto(Base64.Encode(a.privateKey), a.publicKey, a.name, a.order)
  }

  function EncodeAll(xs: seq<Account>): (ds: seq<AccountDto>)
    ensures |ds| == |xs|
    ensures forall i :: 0 <= i < |xs| ==> ds[i] == ToDto(xs[i])
    ensures Readable(ds, true)
  {
    seq(|xs|, i requires 0 <= i < |xs| => ToDto(xs[i]))
  }

  // ---------------------------------------------------------------------------
  // Read path: the collection-wide flag chooses the decoder.

  /**
   * Every stored key can be decoded with the decoder the flag selects. Only the
   * Base64 decoder can fail (it throws on malformed text); a failing Base58
   * decode is absorbed as an empty key.
   */
  predicate Readable(ds: seq<AccountDto>, migrated: bool) {
    migrated ==> forall i :: 0 <= i < |ds| ==> Base64.Decode(ds[i].privateKey).Some?
  }

  function FromDto(d: AccountDto, migrated: bool, legacy: LegacyDecoder): (a: Account)
    requires migrated ==> Base64.Decode(d.privateKey).Some?
    ensures a.publicKey == d.publicKey && a.name == d.name && a.order == d.order
    ensures migrated ==> Base64.Encode(a.privateKey) == d.privateKey
    ensures !migrated && legacy(d.privateKey).Some? ==> a.privateKey == legacy(d.privateKey).value
    ensures !migrated && legacy(d.privateKey).None? ==> a.privateKey == []
  {
    var key :=
      if migrated then Base64.Decode(d.privateKey).value
      else match legacy(d.privateKey)
           case Some(bytes) => bytes
           case None => [];
    if migrated then Base64.EncodeDecode(d.privateKey); Account(key, d.publicKey, d.name, d.order)
    else Account(key, d.publicKey, d.name, d.order)
  }

  function DecodeAll(ds: seq<AccountDto>, migrated: bool, legacy: LegacyDecoder): (xs: seq<Account>)
    requires Readable(ds, migrated)
    ensures |xs| == |ds|
    ensures forall i :: 0 <= i < |ds| ==> xs[i] == FromDto(ds[i], migrated, legacy)
  {
    seq(|ds|, i requires 0 <= i < |ds| => FromDto(ds[i], migrated, legacy))
  }

  /** Reading back what the write path stored gives the same accounts, key bytes included. */
  lemma RecordsRoundTrip(xs: seq<Account>, legacy: LegacyDecoder)
    ensures DecodeAll(EncodeAll(xs), true, legacy) == xs
  {
    var ys := DecodeAll(EncodeAll(xs), true, legacy);
    forall i | 0 <= i < |xs|
      ensures ys[i] == xs[i]
    {
      Base64.DecodeEncode(xs[i].privateKey);
    }
  }

  // ---------------------------------------------------------------------------
  // Stable sort by order (an insertion sort).

  predicate SortedByOrder(xs: seq<Account>) {
    forall i, j :: 0 <= i < j < |xs| ==> xs[i].order <= xs[j].order
  }

  /** Puts `x` before the first element whose order is not smaller. */
  function Insert(x: Account, s: seq<Account>): (r: seq<Account>)
    ensures multiset(r) == multiset(s) + multiset{x}
    ensures SortedByOrder(s) ==> SortedByOrder(r)
    ensures |r| > 0 && (r[0] == x || (|s| > 0 && r[0] == s[0]))
  {
    if s == [] || x.order <= s[0].order then
      ConsSorted(x, s);
      [x] + s
    else
      assert s == [s[0]] + s[1..];
      var rest := Insert(x, s[1..]);
      assert SortedByOrder(s) ==> SortedByOrder([s[0]] + rest) by {
        if SortedByOrder(s) {
          assert SortedByOrder(s[1..]) by {
            forall i, j | 0 <= i < j < |s| - 1
              ensures s[1..][i].order <= s[1..][j].order
            {
              assert s[1..][i] == s[i + 1] && s[1..][j] == s[j + 1];
            }
          }
          assert |s| > 1 ==> s[0].order <= s[1].order;
          ConsSorted(s[0], rest);
        }
      }
      [s[0]] + rest
  }

  /** Putting an account no later than the head in front of an ascending list keeps it ascending. */
  lemma ConsSorted(y: Account, s: seq<Account>)
    requires s != [] ==> y.order <= s[0].order
    ensures SortedByOrder(s) ==> SortedByOrder([y] + s)
  {
    if SortedByOrder(s) {
      forall i, j | 0 <= i < j < |[y] + s|
        ensures ([y] + s)[i].order <= ([y] + s)[j].order
      {
        if i > 0 {
          assert ([y] + s)[i] == s[i - 1] && ([y] + s)[j] == s[j - 1];
        } else {
          assert ([y] + s)[j] == s[j - 1];
        }
      }
    }
  }

  function SortByOrder(xs: seq<Account>): (r: seq<Account>)
    ensures SortedByOrder(r)
    ensures multiset(r) == multiset(xs)
  {
    if xs == [] then []
    else
      assert xs == [xs[0]] + xs[1..];
      Insert(xs[0], SortByOrder(xs[1..]))
  }

  /** The accounts of `xs` with the given order, in their order in `xs`. */
  function WithOrder(xs: seq<Account>, k: int): seq<Account> {
    if xs == [] then []
    else (if xs[0].order == k then [xs[0]] else []) + WithOrder(xs[1..], k)
  }

  lemma {:induction false} InsertWithOrder(x: Account, s: seq<Account>, k: int)
    ensures WithOrder(Insert(x, s), k) == (if x.order == k then [x] else []) + WithOrder(s, k)
  {
    if s == [] || x.order <= s[0].order {
      assert ([x] + s)[1..] == s;
    } else {
      InsertWithOrder(x, s[1..], k);
      assert ([s[0]] + Insert(x, s[1..]))[1..] == Insert(x, s[1..]);
    }
  }

  /** The sort is stable: accounts with equal order keep their relative order. */
  lemma {:induction false} SortStable(xs: seq<Account>, k: int)
    ensures WithOrder(SortByOrder(xs), k) == WithOrder(xs, k)
  {
    if xs != [] {
      SortStable(xs[1..], k);
      InsertWithOrder(xs[0], SortByOrder(xs[1..]), k);
    }
  }

  /** A list already ascending by order is returned as it is. */
  lemma {:induction false} SortSorted(xs: seq<Account>)
    requires SortedByOrder(xs)
    ensures SortByOrder(xs) == xs
  {
    if xs != [] {
      SortSorted(xs[1..]);
      assert [xs[0]] + xs[1..] == xs;
    }
  }

  // ---------------------------------------------------------------------------
  // The largest order (none for an empty list) and the order a new account receives.

  function MaxOrder(xs: seq<Account>): (m: Option<int>)
    ensures m.None? <==> xs == []
    ensures m.Some? ==> (forall i :: 0 <= i < |xs| ==> xs[i].order <= m.value)
                        && (exists i :: 0 <= i < |xs| && xs[i].order == m.value)
  {
    if xs == [] then None
    else match MaxOrder(xs[1..])
      case None => Some(xs[0].order)
      case Some(m) =>
        assert forall i :: 1 <= i < |xs| ==> xs[i] == xs[1..][i - 1];
        Some(if xs[0].order < m then m else xs[0].order)
  }

  /** The order a new account gets: one past the largest order, 0 for an empty list. */
  function NextOrder(xs: seq<Account>): (n: int)
    ensures xs == [] ==> n == 0
    ensures forall i :: 0 <= i < |xs| ==> xs[i].order < n
    ensures xs != [] ==> exists i :: 0 <= i < |xs| && xs[i].order == n - 1
  {
    match MaxOrder(xs)
    case None => 0
    case Some(m) => m + 1
  }

  // ---------------------------------------------------------------------------
  // Orders 0..N-1 (the density the vault maintains).

  /** The i-th account has order i: orders are exactly 0..|xs|-1, ascending. */
  predicate Dense(xs: seq<Account>) {
    forall i :: 0 <= i < |xs| ==> xs[i].order == i
  }

  /** Of a dense list the next order is its length. */
  lemma DenseNextOrder(xs: seq<Account>)
    requires Dense(xs)
    ensures NextOrder(xs) == |xs|
  {
    if xs != [] {
      var i :| 0 <= i < |xs| && xs[i].order == NextOrder(xs) - 1;
      assert xs[|xs| - 1].order < NextOrder(xs);
    }
  }

  /** Each account takes its index as its order; nothing else changes. */
  function Renumber(xs: seq<Account>): (r: seq<Account>)
    ensures |r| == |xs| && Dense(r)
    ensures forall i :: 0 <= i < |xs| ==>
      r[i].privateKey == xs[i].privateKey && r[i].publicKey == xs[i].publicKey && r[i].name == xs[i].name
  {
    seq(|xs|, i requires 0 <= i < |xs| => xs[i].(order := i))
  }

  // ---------------------------------------------------------------------------
  // Lookup by public key.

  /** The index of the first account with the public key, or -1 when there is none. */
  function IndexOfFirst(xs: seq<Account>, key: string): (r: int)
    ensures -1 <= r < |xs|
    ensures r == -1 <==> forall i :: 0 <= i < |xs| ==> xs[i].publicKey != key
    ensures 0 <= r ==> xs[r].publicKey == key && forall i :: 0 <= i < r ==> xs[i].publicKey != key
  {
    if xs == [] then -1
    else if xs[0].publicKey == key then 0
    else
      var r := IndexOfFirst(xs[1..], key);
      assert forall i :: 1 <= i < |xs| ==> xs[i] == xs[1..][i - 1];
      if r == -1 then -1 else r + 1
  }

  /** The first account with the public key, if any. */
  function Find(xs: seq<Account>, key: string): (r: Option<Account>)
    ensures r.None? <==> IndexOfFirst(xs, key) == -1
    ensures r.Some? ==> r.value == xs[IndexOfFirst(xs, key)]
  {
    if xs == [] then None
    else if xs[0].publicKey == key then Some(xs[0])
    else Find(xs[1..], key)
  }

  /** Appending keeps an earlier match; otherwise the new account is found if its key matches. */
  lemma {:induction false} FindAppend(xs: seq<Account>, a: Account, key: string)
    ensures Find(xs + [a], key) ==
      if Find(xs, key).Some? then Find(xs, key)
      else if a.publicKey == key then Some(a) else None
  {
    if xs != [] {
      assert (xs + [a])[0] == xs[0];
      assert (xs + [a])[1..] == xs[1..] + [a];
      FindAppend(xs[1..], a, key);
    }
  }

  /** The account `saveAccount` appends: the caller's fields with order max+1. */
  function Appended(xs: seq<Account>, a: Account): (r: Account)
    ensures r.privateKey == a.privateKey && r.publicKey == a.publicKey && r.name == a.name
    ensures xs == [] ==> r.order == 0
    ensures forall i :: 0 <= i < |xs| ==> xs[i].order < r.order
    ensures xs != [] ==> exists i :: 0 <= i < |xs| && xs[i].order == r.order - 1
  {
    a.(order := NextOrder(xs))
  }

  /**
   * Appending to an ascending list with order max+1 keeps it ascending (so
   * sorting it again changes nothing) and dense; lookups keep an earlier match.
   */
  lemma AppendNext(xs: seq<Account>, a: Account)
    requires SortedByOrder(xs)
    ensures var ys := xs + [Appended(xs, a)];
      SortByOrder(ys) == ys && (Dense(xs) ==> Dense(ys)) &&
      Find(ys, a.publicKey) ==
        if Find(xs, a.publicKey).Some? then Find(xs, a.publicKey) else Some(Appended(xs, a))
  {
    var added := Appended(xs, a);
    AppendSorted(xs, added);
    SortSorted(xs + [added]);
    FindAppend(xs, added, a.publicKey);
    if Dense(xs) {
      AppendDense(xs, added);
    }
  }

  lemma AppendSorted(xs: seq<Account>, a: Account)
    requires SortedByOrder(xs)
    requires forall i :: 0 <= i < |xs| ==> xs[i].order < a.order
    ensures SortedByOrder(xs + [a])
  {
  }

  lemma AppendDense(xs: seq<Account>, a: Account)
    requires Dense(xs) && a.order == NextOrder(xs)
    ensures Dense(xs + [a])
  {
    DenseNextOrder(xs);
    assert forall i :: 0 <= i < |xs| ==> (xs + [a])[i] == xs[i];
  }

  /** The list without its i-th account, the rest renumbered by position. */
  function Survivors(xs: seq<Account>, i: nat): (r: seq<Account>)
    requires i < |xs|
    ensures |r| == |xs| - 1 && Dense(r)
    ensures forall j :: 0 <= j < i ==> r[j] == xs[j].(order := j)
    ensures forall j :: i <= j < |r| ==> r[j] == xs[j + 1].(order := j)
  {
    Renumber(xs[..i] + xs[i + 1..])
  }

  /** Where the active pointer of a removed account goes: its index, or the new tail. */
  function RepairIndex(removed: nat, size: nat): (j: nat)
    requires 0 < size
    ensures j < size
    ensures removed < size ==> j == removed
    ensures removed >= size ==> j == size - 1
  {
    if removed >= size then size - 1 else removed
  }

  /**
   * The survivors of a removal are the other accounts in their previous
   * relative order, renumbered densely; sorting them changes nothing, and the
   * repaired pointer names one of them.
   */
  lemma RemoveRenumbers(xs: seq<Account>, i: nat)
    requires i < |xs| && 1 < |xs|
    ensures var r := Survivors(xs, i);
      |r| == |xs| - 1 && Dense(r) && SortByOrder(r) == r &&
      (forall j :: 0 <= j < |r| ==> r[j].publicKey == (if j < i then xs[j] else xs[j + 1]).publicKey) &&
      Find(r, r[RepairIndex(i, |r|)].publicKey).Some?
  {
    var r := Survivors(xs, i);
    assert SortedByOrder(r);
    SortSorted(r);
  }

  /**
   * Replacing an account of an ascending list by one with the same order keeps
   * the list ascending (so sorting it again changes nothing) and dense.
   */
  lemma ReplaceKeepsOrder(xs: seq<Account>, i: nat, a: Account)
    requires SortedByOrder(xs) && i < |xs| && a.order == xs[i].order
    ensures SortByOrder(xs[i := a]) == xs[i := a]
    ensures Dense(xs) ==> Dense(xs[i := a])
  {
    assert SortedByOrder(xs[i := a]);
    SortSorted(xs[i := a]);
  }
}
