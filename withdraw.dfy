/**
 * The withdraw pane (`withdraw.tsx`): the announcement scanner with its watermark, the filter
 * that turns an announcement batch into claimable entries, the rebuilt one-time private key and
 * the sweep that removes a claimed address from the list.
 */
module Withdraw {
  import opened Wrappers
  import opened Bytes
  import opened Hex
  import opened Group
  import opened Library
  import opened Stealth

  /** `ethers.constants.AddressZero`, the token field of a native-currency payment. */
  const ZeroAddress: string := "0x0000000000000000000000000000000000000000"

  /** Balances below 1e12 wei are dust and never listed. */
  const Dust: nat := 1_000_000_000_000

  /** Announcements read per batch. */
  const BatchSize: nat := 10

  /** 2^53: ethers' `BigNumber.toNumber()` throws for a value this large or larger. */
  const NumberLimit: nat := 0x20_0000_0000_0000

  /** One claimable entry: `[_x, _y, token, balance, addr]`. */
  datatype Claim = Claim(x: string, y: string, token: string, balance: nat, addr: seq<byte>)

  /** What the list may hold: native-currency entries of at least the dust threshold. */
  predicate Claimable(c: Claim) {
    c.token == ZeroAddress && c.balance >= Dust
  }

  /** `s.slice(2)`. */
  function Drop2(s: string): (r: string)
    ensures |s| >= 2 ==> s == s[..2] + r
    ensures |s| < 2 ==> r == []
  {
    if |s| >= 2 then s[2..] else []
  }

  /** `` `04${x.slice(2)}${y.slice(2)}` ``, the hex text handed to `ec.keyFromPublic`. */
  function EphemeralKeyHex(x: string, y: string): (h: string)
    ensures |h| >= 2 && h[..2] == "04"
    ensures |x| >= 2 && |y| >= 2 ==>
      |h| == |x| + |y| - 2 && h[2..|x|] == x[2..] && h[|x|..] == y[2..]
  {
    "04" + Drop2(x) + Drop2(y)
  }

  /**
   * The body `findMatch` maps over a batch. In order: a zero coordinate rejects, an unparsable
   * ephemeral key rejects, a filter byte other than the first shared-secret byte rejects; then
   * the stealth address is derived and kept only for the native token with at least `Dust`.
   * `balanceOf` stands for `fetchBalance`. When `derive` or `encode` throws the callback gives no
   * entry here; what that throw does to the whole batch is `Rejects`.
   */
  function MatchOne(lib: Lib, sk: Scalar, a: Announcement, balanceOf: seq<byte> -> nat): (r: Option<Claim>)
    ensures ParseInt16(a.x) == Some(0) || ParseInt16(a.y) == Some(0) ==> r.None?
    ensures lib.keyFromPublicHex(EphemeralKeyHex(a.x, a.y)).None? ==> r.None?
    ensures r.Some? ==> Claimable(r.value) && r.value.x == a.x && r.value.y == a.y && r.value.token == a.token
    ensures r.Some? ==> r.value.balance == balanceOf(r.value.addr)
    ensures Rejects(lib, sk, a) ==> r.None?
    ensures r.Some? ==>
      var eph := lib.keyFromPublicHex(EphemeralKeyHex(a.x, a.y)).value;
      var ss := SharedSecret(lib, sk, eph);
      ParseInt16(a.ss) == Some(ss[0] as nat) &&
      r.value.addr == AddressOf(lib, StealthPublic(lib, PublicKeyOf(sk), ss))
    ensures (ParseInt16(a.x) != Some(0) && ParseInt16(a.y) != Some(0) &&
             lib.keyFromPublicHex(EphemeralKeyHex(a.x, a.y)).Some? && !Rejects(lib, sk, a)) ==>
      var eph := lib.keyFromPublicHex(EphemeralKeyHex(a.x, a.y)).value;
      var ss := SharedSecret(lib, sk, eph);
      var addr := AddressOf(lib, StealthPublic(lib, PublicKeyOf(sk), ss));
      (ParseInt16(a.ss) == Some(ss[0] as nat) && a.token == ZeroAddress && balanceOf(addr) >= Dust ==>
        r == Some(Claim(a.x, a.y, a.token, balanceOf(addr), addr)))
  {
    if ParseInt16(a.x) == Some(0) || ParseInt16(a.y) == Some(0) then None
    else match lib.keyFromPublicHex(EphemeralKeyHex(a.x, a.y))
      case None => None
      case Some(eph) =>
        if DeriveThrows(sk, eph) then None
        else
          var ss := SharedSecret(lib, sk, eph);
          if ParseInt16(a.ss) != Some(ss[0] as nat) then None
          else
            var stealth := StealthPublic(lib, PublicKeyOf(sk), ss);
            if stealth == Infinity then None
            else
              var addr := AddressOf(lib, stealth);
              if a.token != ZeroAddress then None
              else if balanceOf(addr) >= Dust then Some(Claim(a.x, a.y, a.token, balanceOf(addr), addr))
              else None
  }

  /**
   * The announcements whose callback throws, outside any `try`: non-zero coordinates and a
   * parsing ephemeral key E, and then either sk·E is the point at infinity, so
   * `spendingKey.derive` throws (as for the zero spending key, which a keyfile of '0's imports),
   * or the filter byte matches and the stealth point sk·G + h·G is the point at infinity, so
   * `encode('array', false)` throws.
   */
  predicate Rejects(lib: Lib, sk: Scalar, a: Announcement) {
    ParseInt16(a.x) != Some(0) && ParseInt16(a.y) != Some(0) &&
    lib.keyFromPublicHex(EphemeralKeyHex(a.x, a.y)).Some? &&
    var eph := lib.keyFromPublicHex(EphemeralKeyHex(a.x, a.y)).value;
    (DeriveThrows(sk, eph) ||
     (ParseInt16(a.ss) == Some(SharedSecret(lib, sk, eph)[0] as nat) &&
      StealthPublic(lib, PublicKeyOf(sk), SharedSecret(lib, sk, eph)) == Infinity))
  }

  /** `Promise.all` rejects when any callback of the batch throws. */
  predicate BatchRejects(lib: Lib, sk: Scalar, batch: seq<Announcement>) {
    exists i :: 0 <= i < |batch| && Rejects(lib, sk, batch[i])
  }

  /** `MatchOne` for a fixed spending key and balance lookup, as the callback passed to `map`. */
  function Matcher(lib: Lib, sk: Scalar, balanceOf: seq<byte> -> nat): Announcement -> Option<Claim> {
    a => MatchOne(lib, sk, a, balanceOf)
  }

  /** `s.map(f)`. */
  function Map<A, B>(f: A -> B, s: seq<A>): (r: seq<B>)
    ensures |r| == |s|
    ensures forall i :: 0 <= i < |s| ==> r[i] == f(s[i])
  {
    if s == [] then [] else Map(f, s[..|s| - 1]) + [f(s[|s| - 1])]
  }

  /** Mapping a concatenation maps each part. */
  lemma {:induction false} MapAppend<A, B>(f: A -> B, a: seq<A>, b: seq<A>)
    ensures Map(f, a + b) == Map(f, a) + Map(f, b)
  {
    if b != [] {
      var b' := b[..|b| - 1];
      assert (a + b)[..|a + b| - 1] == a + b';
      assert (a + b)[|a + b| - 1] == b[|b| - 1];
      MapAppend(f, a, b');
    } else {
      assert a + b == a;
    }
  }

  /** `filter((y) => y !== null)`: the present values, in order. */
  function Somes<T>(s: seq<Option<T>>): (r: seq<T>)
    ensures |r| <= |s|
    ensures |r| == |s| <==> forall i :: 0 <= i < |s| ==> s[i].Some?
    ensures r == [] <==> forall i :: 0 <= i < |s| ==> s[i].None?
  {
    if s == [] then []
    else Somes(s[..|s| - 1]) + (if s[|s| - 1].Some? then [s[|s| - 1].value] else [])
  }

  /** Filtering a concatenation filters each part. */
  lemma {:induction false} SomesAppend<T>(a: seq<Option<T>>, b: seq<Option<T>>)
    ensures Somes(a + b) == Somes(a) + Somes(b)
  {
    if b != [] {
      var b' := b[..|b| - 1];
      assert (a + b)[..|a + b| - 1] == a + b';
      assert (a + b)[|a + b| - 1] == b[|b| - 1];
      SomesAppend(a, b');
    } else {
      assert a + b == a;
    }
  }

  /** A value survives the filter exactly when it was present. */
  lemma {:induction false} SomesMembership<T>(s: seq<Option<T>>, x: T)
    ensures x in Somes(s) <==> Some(x) in s
  {
    if s != [] {
      var init := s[..|s| - 1];
      SomesMembership(init, x);
      assert s == init + [s[|s| - 1]];
    }
  }

  /** The entries `findMatch` adds for one batch: the non-null results, in batch order. */
  function Matches(lib: Lib, sk: Scalar, batch: seq<Announcement>, balanceOf: seq<byte> -> nat): (r: seq<Claim>)
    ensures |r| <= |batch|
    ensures forall c :: c in r ==> Claimable(c)
  {
    var f := Matcher(lib, sk, balanceOf);
    assert forall a :: f(a).Some? ==> Claimable(f(a).value);
    SomesOfMapSatisfy(f, batch, Claimable);
    Somes(Map(f, batch))
  }

  /** When every present result of f satisfies P, so does every value the filtered map keeps. */
  lemma SomesOfMapSatisfy<A, B>(f: A -> Option<B>, s: seq<A>, P: B -> bool)
    requires forall a :: f(a).Some? ==> P(f(a).value)
    ensures forall x :: x in Somes(Map(f, s)) ==> P(x)
  {
    forall x | x in Somes(Map(f, s)) ensures P(x) {
      SomesMembership(Map(f, s), x);
    }
  }

  /** Scanning two batches one after the other lists the first batch's matches first. */
  lemma MatchesAppend(lib: Lib, sk: Scalar, a: seq<Announcement>, b: seq<Announcement>, balanceOf: seq<byte> -> nat)
    ensures Matches(lib, sk, a + b, balanceOf) == Matches(lib, sk, a, balanceOf) + Matches(lib, sk, b, balanceOf)
  {
    var f := Matcher(lib, sk, balanceOf);
    MapAppend(f, a, b);
    SomesAppend(Map(f, a), Map(f, b));
  }

  /** A value is among the present results exactly when f yields it for some element. */
  lemma MapSomesMembership<A, B>(f: A -> Option<B>, s: seq<A>, x: B)
    ensures x in Somes(Map(f, s)) <==> exists i :: 0 <= i < |s| && f(s[i]) == Some(x)
  {
    var results := Map(f, s);
    SomesMembership(results, x);
    if exists i :: 0 <= i < |s| && f(s[i]) == Some(x) {
      var i :| 0 <= i < |s| && f(s[i]) == Some(x);
      assert results[i] == Some(x);
    }
  }

  /** An entry is listed exactly when some announcement of the batch yields it. */
  lemma MatchesMembership(lib: Lib, sk: Scalar, batch: seq<Announcement>, balanceOf: seq<byte> -> nat, c: Claim)
    ensures c in Matches(lib, sk, batch, balanceOf) <==>
      exists i :: 0 <= i < |batch| && MatchOne(lib, sk, batch[i], balanceOf) == Some(c)
  {
    var f := Matcher(lib, sk, balanceOf);
    MapSomesMembership(f, batch, c);
    assert forall i :: 0 <= i < |batch| ==> f(batch[i]) == MatchOne(lib, sk, batch[i], balanceOf);
  }

  /**
   * The sequential form of `Promise.all(keys.map(f))` followed by the null filter: the present
   * results of f over s, in order.
   */
  method CollectSomes<A, B>(f: A -> Option<B>, s: seq<A>) returns (found: seq<B>)
    ensures found == Somes(Map(f, s))
  {
    found := [];
    var i := 0;
    while i < |s|
      invariant 0 <= i <= |s|
      invariant found == Somes(Map(f, s[..i]))
    {
      var m := f(s[i]);
      assert s[..i + 1] == s[..i] + [s[i]];
      MapAppend(f, s[..i], [s[i]]);
      assert Map(f, [s[i]]) == [m] by {
        assert [s[i]][..0] == [];
      }
      SomesAppend(Map(f, s[..i]), [m]);
      assert [m][..0] == [];
      if m.Some? {
        found := found + [m.value];
      }
      i := i + 1;
    }
    assert s[..i] == s;
  }

  /** `keyAddrs.filter((p) => p[4] !== addr)`. */
  function RemoveAddress(list: seq<Claim>, addr: seq<byte>): (r: seq<Claim>)
    ensures |r| <= |list|
    ensures forall c :: c in r <==> c in list && c.addr != addr
    ensures forall c :: multiset(r)[c] == if c.addr != addr then multiset(list)[c] else 0
  {
    if list == [] then []
    else
      var rest := RemoveAddress(list[..|list| - 1], addr);
      var last := list[|list| - 1];
      assert list == list[..|list| - 1] + [last];
      assert multiset(list) == multiset(list[..|list| - 1]) + multiset{last};
      if last.addr != addr then
        assert multiset(rest + [last]) == multiset(rest) + multiset{last};
        rest + [last]
      else rest
  }

  /** Removing from a concatenation removes from each part and keeps their order. */
  lemma {:induction false} RemoveAddressAppend(a: seq<Claim>, b: seq<Claim>, addr: seq<byte>)
    ensures RemoveAddress(a + b, addr) == RemoveAddress(a, addr) + RemoveAddress(b, addr)
  {
    if b != [] {
      var b', last := b[..|b| - 1], b[|b| - 1];
      var tail := if last.addr != addr then [last] else [];
      assert (a + b)[..|a + b| - 1] == a + b';
      assert (a + b)[|a + b| - 1] == last;
      assert RemoveAddress(a + b, addr) == RemoveAddress(a + b', addr) + tail;
      assert RemoveAddress(b, addr) == RemoveAddress(b', addr) + tail;
      RemoveAddressAppend(a, b', addr);
    } else {
      assert a + b == a;
    }
  }

  /** The next watermark after a batch: up by at most `BatchSize`, never past `count`. */
  function NextIndex(count: nat, index: nat): (r: nat)
    ensures index <= r && r - index <= BatchSize
    ensures index < count ==> index < r <= count
    ensures count <= index ==> r == index
  {
    if count > index then if count < index + BatchSize then count else index + BatchSize else index
  }

  /** The watermark after k batches of one session, starting from 0. */
  function Watermark(count: nat, k: nat): (w: nat)
    ensures w <= count && w <= BatchSize * k
  {
    if k == 0 then 0 else NextIndex(count, Watermark(count, k - 1))
  }

  /** After k batches the watermark is min(count, 10k): batches are contiguous and stop at count. */
  lemma {:induction false} WatermarkAfter(count: nat, k: nat)
    ensures Watermark(count, k) == if count < BatchSize * k then count else BatchSize * k
  {
    if k > 0 {
      WatermarkAfter(count, k - 1);
    }
  }

  /**
   * `buildPrivateKey`: parse the ephemeral key, rederive the blinder, add it to sk mod n. An
   * unparsable key, or a `derive` that throws, builds nothing.
   */
  function BuildPrivateKey(lib: Lib, x: string, y: string, sk: Scalar): (k: Option<Scalar>)
    ensures k.Some? <==> lib.keyFromPublicHex(EphemeralKeyHex(x, y)).Some? &&
                         !DeriveThrows(sk, lib.keyFromPublicHex(EphemeralKeyHex(x, y)).value)
    ensures k.Some? ==>
      var ss := SharedSecret(lib, sk, lib.keyFromPublicHex(EphemeralKeyHex(x, y)).value);
      PublicKeyOf(k.value) == StealthPublic(lib, PublicKeyOf(sk), ss)
  {
    match lib.keyFromPublicHex(EphemeralKeyHex(x, y))
    case None => None
    case Some(eph) =>
      if DeriveThrows(sk, eph) then None
      else Some(StealthPrivateKey(sk, Blinder(lib, SharedSecret(lib, sk, eph))))
  }

  /** The key rebuilt for a listed entry controls exactly that entry's address. */
  lemma ClaimKeyControlsAddress(lib: Lib, sk: Scalar, a: Announcement, balanceOf: seq<byte> -> nat)
    requires MatchOne(lib, sk, a, balanceOf).Some?
    ensures var c := MatchOne(lib, sk, a, balanceOf).value;
      BuildPrivateKey(lib, c.x, c.y, sk).Some? &&
      AddressOf(lib, PublicKeyOf(BuildPrivateKey(lib, c.x, c.y, sk).value)) == c.addr
  {
  }

  /** The transaction a sweep signs: from the stealth address, everything but the fee. */
  datatype Sweep = Sweep(key: Scalar, from: seq<byte>, to: seq<byte>, value: int)

  /**
   * The evidently intended sweep: the whole balance less gasLimit·gasPrice, for every fee. Only
   * the zero key is refused, because `new ethers.Wallet` throws for it.
   */
  function IntendedSweep(key: Scalar, from: seq<byte>, to: seq<byte>, balance: nat, gasLimit: nat, gasPrice: nat)
    : (r: Option<Sweep>)
    ensures r.Some? <==> key != 0
    ensures r.Some? ==>
      r.value.key == key && r.value.from == from && r.value.to == to &&
      r.value.value + gasLimit * gasPrice == balance
  {
    if key == 0 then None else Some(Sweep(key, from, to, balance - gasLimit * gasPrice))
  }

  /**
   * The sweep the `try` of `withdraw` builds, as written: it logs the fee with `fee.toNumber()`,
   * which throws from 2^53 wei on, so a large fee sends nothing.
   */
  function LoggedSweep(key: Scalar, from: seq<byte>, to: seq<byte>, balance: nat, gasLimit: nat, gasPrice: nat)
    : (r: Option<Sweep>)
    ensures r == if gasLimit * gasPrice < NumberLimit then IntendedSweep(key, from, to, balance, gasLimit, gasPrice)
                 else None
  {
    if key == 0 || gasLimit * gasPrice >= NumberLimit then None
    else Some(Sweep(key, from, to, balance - gasLimit * gasPrice))
  }

  /** 21000 gas at 430 gwei: the logged fee throws, while the intended sweep goes out. */
  lemma FeeLogFault()
    ensures LoggedSweep(1, [], [], 1_000_000_000_000_000_000, 21000, 430_000_000_000) == None
    ensures IntendedSweep(1, [], [], 1_000_000_000_000_000_000, 21000, 430_000_000_000).Some?
  {
  }

  /** The scanner's state: total announcements, watermark, and the claimable list. */
  class Scanner {
    var keysCount: nat
    var keysIndex: nat
    var keyAddrs: seq<Claim>

    /** Every listed entry is claimable. */
    ghost predicate ClaimsValid()
      reads this
    {
      forall c :: c in keyAddrs ==> Claimable(c)
    }

    /** The watermark has not passed the known total. */
    ghost predicate WatermarkValid()
      reads this
    {
      keysIndex <= keysCount
    }

    ghost predicate Valid()
      reads this
    {
      ClaimsValid() && WatermarkValid()
    }

    constructor ()
      ensures Valid() && keysCount == 0 && keysIndex == 0 && keyAddrs == []
    {
      keysCount, keysIndex, keyAddrs := 0, 0, [];
    }

    /** The effect on a change of spending key or chain: empty list, watermark back to 0. */
    method Reset()
      modifies this`keyAddrs, this`keysIndex
      ensures Valid() && keyAddrs == [] && keysIndex == 0
    {
      keyAddrs := [];
      keysIndex := 0;
    }

    /** `setKeysCount` from the registry's `totalKeys`. */
    method UpdateCount(count: nat)
      requires Valid()
      modifies this`keysCount
      ensures keysCount == count && ClaimsValid()
      ensures WatermarkValid() <==> keysIndex <= count
    {
      keysCount := count;
    }

    /**
     * `findMatch`: the batch's matches are appended after the entries already listed. A batch
     * whose `Promise.all` rejects sets nothing.
     */
    method FindMatch(lib: Lib, sk: Option<Scalar>, connected: bool, batch: seq<Announcement>,
                     balanceOf: seq<byte> -> nat)
      requires Valid()
      modifies this`keyAddrs
      ensures Valid()
      ensures keyAddrs == if sk.Some? && connected && !BatchRejects(lib, sk.value, batch)
                          then old(keyAddrs) + Matches(lib, sk.value, batch, balanceOf)
                          else old(keyAddrs)
    {
      if sk.None? || !connected || BatchRejects(lib, sk.value, batch) {
        return;
      }
      var found := CollectSomes(Matcher(lib, sk.value, balanceOf), batch);
      assert found == Matches(lib, sk.value, batch, balanceOf);
      keyAddrs := keyAddrs + found;
    }

    /** The delayed `setKeysIndex(Math.min(keysCount, keysIndex + 10))`, run when behind. */
    method Advance()
      requires Valid()
      modifies this`keysIndex
      ensures Valid()
      ensures keysIndex == NextIndex(keysCount, old(keysIndex))
    {
      if keysCount > keysIndex {
        keysIndex := if keysCount < keysIndex + BatchSize then keysCount else keysIndex + BatchSize;
      }
    }

    /**
     * The scan effect: with a known non-zero total, a key and a connection, the batch read at the
     * watermark is matched and the watermark advanced. The advance runs in `findMatch(..).then`,
     * so a rejected batch changes neither.
     */
    method ScanStep(lib: Lib, sk: Option<Scalar>, connected: bool, batch: seq<Announcement>,
                    balanceOf: seq<byte> -> nat)
      requires Valid()
      modifies this`keyAddrs, this`keysIndex
      ensures Valid()
      ensures keysCount == 0 || sk.None? || !connected || BatchRejects(lib, sk.value, batch) ==>
        keyAddrs == old(keyAddrs) && keysIndex == old(keysIndex)
      ensures keysCount != 0 && sk.Some? && connected && !BatchRejects(lib, sk.value, batch) ==>
        keyAddrs == old(keyAddrs) + Matches(lib, sk.value, batch, balanceOf) &&
        keysIndex == NextIndex(keysCount, old(keysIndex))
    {
      if keysCount == 0 || sk.None? || !connected || BatchRejects(lib, sk.value, batch) {
        return;
      }
      FindMatch(lib, sk, connected, batch, balanceOf);
      Advance();
    }

    /**
     * `withdraw`: with a key, the one-time key is rebuilt and the whole balance less
     * gasLimit·gasPrice is sent (no check that the fee fits); once the transaction is confirmed
     * every entry with that address is removed. `confirmed` stands for the send and wait. A
     * throw (no key built, the zero key refused by the wallet, a fee of 2^53 wei or more failing
     * `toNumber`) sends nothing and leaves the list as it was.
     */
    method Withdraw(lib: Lib, sk: Option<Scalar>, x: string, y: string, addr: seq<byte>, target: seq<byte>,
                    balance: nat, gasLimit: nat, gasPrice: nat, confirmed: bool)
      returns (tx: Option<Sweep>)
      requires Valid()
      modifies this`keyAddrs
      ensures Valid()
      ensures sk.None? ==> tx.None?
      ensures sk.Some? ==>
        (tx.Some? <==> BuildPrivateKey(lib, x, y, sk.value).Some? && BuildPrivateKey(lib, x, y, sk.value).value != 0 &&
                       gasLimit * gasPrice < NumberLimit)
      ensures gasLimit * gasPrice >= NumberLimit ==> tx.None? && keyAddrs == old(keyAddrs)
      ensures tx.Some? ==>
        tx.value.key == BuildPrivateKey(lib, x, y, sk.value).value && tx.value.from == addr &&
        tx.value.to == target && tx.value.value + gasLimit * gasPrice == balance
      ensures keyAddrs == if tx.Some? && confirmed then RemoveAddress(old(keyAddrs), addr) else old(keyAddrs)
    {
      if sk.None? {
        return None;
      }
      var key := BuildPrivateKey(lib, x, y, sk.value);
      if key.None? {
        return None;
      }
      tx := LoggedSweep(key.value, addr, target, balance, gasLimit, gasPrice);
      if tx.Some? && confirmed {
        keyAddrs := RemoveAddress(keyAddrs, addr);
      }
    }
  }
}
