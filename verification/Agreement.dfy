/** Two readers of one table of numbered records: one lists the revoked records, the other looks a number up by its
    key. When do they say the same? */
module Agreement {
  import opened Text

  /** A record with its index key, the number that its key was made from, and what its revocation says. */
  datatype Rec<T> = Rec(key: string, number: int, revoked: bool, data: T)

  datatype Entry<T> = Entry(serial: int, info: T)

  /** The list of the revoked records. */
  function Listed<T>(recs: seq<Rec<T>>): (r: seq<Entry<T>>) {
    if recs == [] then []
    else
      var init, last := Listed(recs[..|recs| - 1]), recs[|recs| - 1];
      if last.revoked then init + [Entry(last.number, last.data)] else init
  }

  /** The record that a key finds. */
  function Found<T>(recs: seq<Rec<T>>, key: string): (r: Option<nat>)
    ensures r.Some? ==> r.value < |recs| && recs[r.value].key == key
    ensures r.None? ==> forall i :: 0 <= i < |recs| ==> recs[i].key != key
  {
    if recs == [] then None
    else if recs[|recs| - 1].key == key then Some(|recs| - 1)
    else Found(recs[..|recs| - 1], key)
  }

  /** Looking up number `n` finds a revoked record with data `x`. */
  predicate Says<T(==)>(recs: seq<Rec<T>>, keyOf: int -> string, n: int, x: T) {
    var found := Found(recs, keyOf(n));
    found.Some? && recs[found.value].revoked && recs[found.value].data == x
  }

  ghost predicate Agree<T(!new)>(recs: seq<Rec<T>>, keyOf: int -> string) {
    forall n, x :: Says(recs, keyOf, n, x) <==> Entry(n, x) in Listed(recs)
  }

  /** No number is listed twice. */
  ghost predicate NumbersOnce<T>(list: seq<Entry<T>>) {
    forall i, j :: 0 <= i < j < |list| ==> list[i].serial != list[j].serial
  }

  ghost predicate KeysDistinct<T>(recs: seq<Rec<T>>) {
    forall i, j :: 0 <= i < j < |recs| ==> recs[i].key != recs[j].key
  }

  /** A record whose key is that of a number has that number. */
  ghost predicate Sound<T>(recs: seq<Rec<T>>, keyOf: int -> string) {
    forall i, n :: 0 <= i < |recs| && recs[i].key == keyOf(n) ==> recs[i].number == n
  }

  // ----- the list

  /** The entry of a revoked record stands behind those of the revoked records before it. */
  lemma {:induction false} ListedAt<T>(recs: seq<Rec<T>>, j: nat)
    requires j < |recs| && recs[j].revoked
    ensures var k := |Listed(recs[..j])|; k < |Listed(recs)| && Listed(recs)[k] == Entry(recs[j].number, recs[j].data)
    decreases recs
  {
    var init := recs[..|recs| - 1];
    if j < |init| {
      ListedAt(init, j);
      assert init[..j] == recs[..j] && init[j] == recs[j];
    }
  }

  /** Every entry is that of such a record. */
  lemma {:induction false} ListedFrom<T>(recs: seq<Rec<T>>, k: nat) returns (j: nat)
    requires k < |Listed(recs)|
    ensures j < |recs| && recs[j].revoked && |Listed(recs[..j])| == k
        && Listed(recs)[k] == Entry(recs[j].number, recs[j].data)
    decreases recs
  {
    var init := recs[..|recs| - 1];
    if k < |Listed(init)| {
      j := ListedFrom(init, k);
      assert init[..j] == recs[..j] && init[j] == recs[j];
    } else {
      j := |init|;
    }
  }

  /** Exactly the revoked records are listed. */
  lemma ListedExactly<T>(recs: seq<Rec<T>>, n: int, x: T)
    ensures Entry(n, x) in Listed(recs)
       <==> exists i :: 0 <= i < |recs| && recs[i].revoked && recs[i].number == n && recs[i].data == x
  {
    if Entry(n, x) in Listed(recs) {
      var k :| 0 <= k < |Listed(recs)| && Listed(recs)[k] == Entry(n, x);
      var i := ListedFrom(recs, k);
    }
    if i :| 0 <= i < |recs| && recs[i].revoked && recs[i].number == n && recs[i].data == x {
      ListedAt(recs, i);
    }
  }

  lemma {:induction false} ListedMonotone<T>(recs: seq<Rec<T>>, i: nat, j: nat)
    requires i < j <= |recs| && recs[i].revoked
    ensures |Listed(recs[..i])| < |Listed(recs[..j])|
    decreases j
  {
    assert recs[..j][..j - 1] == recs[..j - 1] && recs[..j][j - 1] == recs[j - 1];
    if i < j - 1 { ListedMonotone(recs, i, j - 1); }
  }

  /** A number is listed once exactly when no two revoked records have it. */
  lemma OnceExactly<T>(recs: seq<Rec<T>>)
    ensures NumbersOnce(Listed(recs)) <==> RevokedOnce(recs)
  {
    if NumbersOnce(Listed(recs)) {
      forall i, j | 0 <= i < j < |recs| && recs[i].revoked && recs[j].revoked ensures recs[i].number != recs[j].number {
        ListedAt(recs, i);
        ListedAt(recs, j);
        ListedMonotone(recs, i, j);
      }
    }
    if RevokedOnce(recs) {
      forall k, l | 0 <= k < l < |Listed(recs)| ensures Listed(recs)[k].serial != Listed(recs)[l].serial {
        var i := ListedFrom(recs, k);
        var j := ListedFrom(recs, l);
      }
    }
  }

  ghost predicate RevokedOnce<T>(recs: seq<Rec<T>>) {
    forall i, j :: 0 <= i < j < |recs| && recs[i].revoked && recs[j].revoked ==> recs[i].number != recs[j].number
  }

  // ----- agreement

  /** A revoked record whose number finds a revoked record with the same data, itself or another. */
  predicate Echoed<T(==)>(recs: seq<Rec<T>>, keyOf: int -> string, i: nat)
    requires i < |recs|
  {
    Says(recs, keyOf, recs[i].number, recs[i].data)
  }

  lemma SaysListed<T>(recs: seq<Rec<T>>, keyOf: int -> string, n: int, x: T)
    requires Sound(recs, keyOf) && Says(recs, keyOf, n, x)
    ensures Entry(n, x) in Listed(recs)
  {
    ListedExactly(recs, n, x);
    var i := Found(recs, keyOf(n)).value;
    assert recs[i].number == n;
  }

  /** The two readers agree exactly when every revoked record is echoed. */
  lemma AgreeExactly<T(!new)>(recs: seq<Rec<T>>, keyOf: int -> string)
    requires Sound(recs, keyOf)
    ensures Agree(recs, keyOf) <==> forall i :: 0 <= i < |recs| && recs[i].revoked ==> Echoed(recs, keyOf, i)
  {
    if Agree(recs, keyOf) {
      forall i | 0 <= i < |recs| && recs[i].revoked ensures Echoed(recs, keyOf, i) {
        ListedExactly(recs, recs[i].number, recs[i].data);
      }
    }
    if forall i :: 0 <= i < |recs| && recs[i].revoked ==> Echoed(recs, keyOf, i) {
      forall n, x ensures Says(recs, keyOf, n, x) <==> Entry(n, x) in Listed(recs) {
        ListedExactly(recs, n, x);
        if Says(recs, keyOf, n, x) { SaysListed(recs, keyOf, n, x); }
      }
    }
  }

  /** The key of a record is the key of its own number. */
  predicate OwnKey<T>(recs: seq<Rec<T>>, keyOf: int -> string, i: nat)
    requires i < |recs|
  {
    recs[i].key == keyOf(recs[i].number)
  }

  lemma OwnKeyEchoed<T>(recs: seq<Rec<T>>, keyOf: int -> string, i: nat)
    requires KeysDistinct(recs) && i < |recs| && recs[i].revoked && OwnKey(recs, keyOf, i)
    ensures Echoed(recs, keyOf, i)
  {
  }

  lemma EchoedOwnKey<T>(recs: seq<Rec<T>>, keyOf: int -> string, i: nat)
    requires Sound(recs, keyOf) && NumbersOnce(Listed(recs)) && i < |recs| && recs[i].revoked && Echoed(recs, keyOf, i)
    ensures OwnKey(recs, keyOf, i)
  {
    OnceExactly(recs);
    var j := Found(recs, keyOf(recs[i].number)).value;
    assert recs[j].number == recs[i].number;
  }

  /** They agree and no number is listed twice exactly when every revoked record has the key of its own number. */
  lemma AgreeOnceExactly<T(!new)>(recs: seq<Rec<T>>, keyOf: int -> string)
    requires Sound(recs, keyOf) && KeysDistinct(recs)
    ensures Agree(recs, keyOf) && NumbersOnce(Listed(recs))
       <==> forall i :: 0 <= i < |recs| && recs[i].revoked ==> OwnKey(recs, keyOf, i)
  {
    AgreeExactly(recs, keyOf);
    OnceExactly(recs);
    if forall i :: 0 <= i < |recs| && recs[i].revoked ==> OwnKey(recs, keyOf, i) {
      forall i | 0 <= i < |recs| && recs[i].revoked ensures Echoed(recs, keyOf, i) { OwnKeyEchoed(recs, keyOf, i); }
      forall i, j | 0 <= i < j < |recs| && recs[i].revoked && recs[j].revoked ensures recs[i].number != recs[j].number {
        assert OwnKey(recs, keyOf, i) && OwnKey(recs, keyOf, j);
      }
    }
    if Agree(recs, keyOf) && NumbersOnce(Listed(recs)) {
      forall i | 0 <= i < |recs| && recs[i].revoked ensures OwnKey(recs, keyOf, i) { EchoedOwnKey(recs, keyOf, i); }
    }
  }
}
