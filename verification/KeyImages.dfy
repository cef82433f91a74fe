/**
  Key images (`check_kis_unique` in `consensus/src/transactions.rs`). A transaction is seen here as
  the list of its inputs.
*/
module KeyImages {
  type KeyImage = nat

  datatype Input = Gen(height: nat) | ToKey(image: KeyImage)

  type Spending = seq<seq<Input>>

  /** Input `j` of transaction `i` spends `k`. */
  predicate SpendsAt(txs: Spending, i: nat, j: nat, k: KeyImage) {
    i < |txs| && j < |txs[i]| && txs[i][j] == ToKey(k)
  }

  /** No image is spent at two places, in one transaction or in two. */
  ghost predicate NoDoubleSpend(txs: Spending) {
    forall i, j, i', j', k :: SpendsAt(txs, i, j, k) && SpendsAt(txs, i', j', k) ==> i == i' && j == j'
  }

  ghost predicate SpentIn(txs: Spending, k: KeyImage) {
    exists i, j :: SpendsAt(txs, i, j, k)
  }

  ghost predicate SpendsNoneOf(txs: Spending, spent: set<KeyImage>) {
    forall k :: k in spent ==> !SpentIn(txs, k)
  }

  ghost predicate Records(spent: set<KeyImage>, txs: Spending) {
    forall k :: k in spent <==> SpentIn(txs, k)
  }

  /** Whether place (a, b) comes before place (i, j). */
  predicate Before(a: nat, b: nat, i: nat, j: nat) {
    a < i || (a == i && b < j)
  }

  /** The set holds the images of the places before (i, j), and those are all different. */
  ghost predicate Seen(txs: Spending, i: nat, j: nat, seen: set<KeyImage>) {
    && (forall a, b, k :: SpendsAt(txs, a, b, k) && Before(a, b, i, j) ==> k in seen)
    && (forall k :: k in seen ==> exists a, b :: SpendsAt(txs, a, b, k) && Before(a, b, i, j))
    && (forall a, b, a', b', k ::
          SpendsAt(txs, a, b, k) && SpendsAt(txs, a', b', k) && Before(a, b, i, j) && Before(a', b', i, j) ==>
            a == a' && b == b')
  }

  lemma SeenInput(txs: Spending, i: nat, j: nat, seen: set<KeyImage>)
    requires Seen(txs, i, j, seen) && i < |txs| && j < |txs[i]|
    ensures txs[i][j].Gen? ==> Seen(txs, i, j + 1, seen)
    ensures txs[i][j].ToKey? && txs[i][j].image !in seen ==> Seen(txs, i, j + 1, seen + {txs[i][j].image})
    ensures txs[i][j].ToKey? && txs[i][j].image in seen ==> !NoDoubleSpend(txs)
  {
    if txs[i][j].ToKey? {
      var k := txs[i][j].image;
      assert SpendsAt(txs, i, j, k);
      if k !in seen {
        forall h | h in seen + {k}
          ensures exists a, b :: SpendsAt(txs, a, b, h) && Before(a, b, i, j + 1)
        {
          if h in seen {
            var a, b :| SpendsAt(txs, a, b, h) && Before(a, b, i, j);
            assert Before(a, b, i, j + 1);
          } else {
            assert Before(i, j, i, j + 1);
          }
        }
      }
    } else {
      forall h | h in seen
        ensures exists a, b :: SpendsAt(txs, a, b, h) && Before(a, b, i, j + 1)
      {
        var a, b :| SpendsAt(txs, a, b, h) && Before(a, b, i, j);
        assert Before(a, b, i, j + 1);
      }
    }
  }

  lemma SeenTransaction(txs: Spending, i: nat, seen: set<KeyImage>)
    requires i < |txs| && Seen(txs, i, |txs[i]|, seen)
    ensures Seen(txs, i + 1, 0, seen)
  {
    forall h | h in seen
      ensures exists a, b :: SpendsAt(txs, a, b, h) && Before(a, b, i + 1, 0)
    {
      var a, b :| SpendsAt(txs, a, b, h) && Before(a, b, i, |txs[i]|);
      assert Before(a, b, i + 1, 0);
    }
  }

  /** Succeeds exactly when nothing is spent twice, within the transactions or against the chain. */
  method CheckKisUnique(txs: Spending, spent: set<KeyImage>) returns (ok: bool)
    ensures ok <==> NoDoubleSpend(txs) && SpendsNoneOf(txs, spent)
  {
    var seen: set<KeyImage> := {};
    for i := 0 to |txs|
      invariant Seen(txs, i, 0, seen)
    {
      for j := 0 to |txs[i]|
        invariant Seen(txs, i, j, seen)
      {
        SeenInput(txs, i, j, seen);
        if txs[i][j].ToKey? {
          if txs[i][j].image in seen { return false; }
          seen := seen + {txs[i][j].image};
        }
      }
      SeenTransaction(txs, i, seen);
    }
    SeenAll(txs, seen);
    ok := seen !! spent;
  }

  lemma SeenAll(txs: Spending, seen: set<KeyImage>)
    requires Seen(txs, |txs|, 0, seen)
    ensures NoDoubleSpend(txs) && Records(seen, txs)
  {
    forall i, j, k | SpendsAt(txs, i, j, k)
      ensures Before(i, j, |txs|, 0)
    {}
    forall i, j, i', j', k | SpendsAt(txs, i, j, k) && SpendsAt(txs, i', j', k)
      ensures i == i' && j == j'
    {
      assert Before(i, j, |txs|, 0) && Before(i', j', |txs|, 0);
    }
  }

  // ----- Spending on top of what is recorded -----

  lemma SpendsAtAppend(past: Spending, txs: Spending, i: nat, j: nat, k: KeyImage)
    ensures SpendsAt(past + txs, i, j, k) <==>
        if i < |past| then SpendsAt(past, i, j, k) else SpendsAt(txs, i - |past|, j, k)
  {}

  /** Transactions that pass the check can follow the recorded ones, and recording them keeps the record. */
  lemma CheckedCanFollow(past: Spending, spent: set<KeyImage>, txs: Spending, images: set<KeyImage>)
    requires NoDoubleSpend(past) && Records(spent, past)
    requires NoDoubleSpend(txs) && SpendsNoneOf(txs, spent) && Records(images, txs)
    ensures NoDoubleSpend(past + txs) && Records(spent + images, past + txs)
  {
    forall i: nat, j: nat, i': nat, j': nat, k | SpendsAt(past + txs, i, j, k) && SpendsAt(past + txs, i', j', k)
      ensures i == i' && j == j'
    {
      SpendsAtAppend(past, txs, i, j, k);
      SpendsAtAppend(past, txs, i', j', k);
      assert i < |past| ==> SpentIn(past, k);
      assert i' < |past| ==> SpentIn(past, k);
    }
    forall k
      ensures k in spent + images <==> SpentIn(past + txs, k)
    {
      RecordsAppend(past, txs, k);
    }
  }

  lemma RecordsAppend(past: Spending, txs: Spending, k: KeyImage)
    ensures SpentIn(past + txs, k) <==> SpentIn(past, k) || SpentIn(txs, k)
  {
    if i, j :| SpendsAt(past, i, j, k) {
      SpendsAtAppend(past, txs, i, j, k);
    }
    if i, j :| SpendsAt(txs, i, j, k) {
      SpendsAtAppend(past, txs, |past| + i, j, k);
    }
    if i, j :| SpendsAt(past + txs, i, j, k) {
      SpendsAtAppend(past, txs, i, j, k);
    }
  }

  /** A chain cut back to fewer transactions still spends nothing twice, and what is cut off becomes free. */
  lemma CutBack(past: Spending, cut: Spending, spent: set<KeyImage>, images: set<KeyImage>)
    requires NoDoubleSpend(past + cut) && Records(spent, past + cut) && Records(images, cut)
    ensures NoDoubleSpend(past) && Records(spent - images, past) && SpendsNoneOf(cut, spent - images)
  {
    forall i, j, i', j', k | SpendsAt(past, i, j, k) && SpendsAt(past, i', j', k)
      ensures i == i' && j == j'
    {
      SpendsAtAppend(past, cut, i, j, k);
      SpendsAtAppend(past, cut, i', j', k);
    }
    forall k
      ensures k in spent - images <==> SpentIn(past, k)
    {
      RecordsAppend(past, cut, k);
      if i, j :| SpendsAt(past, i, j, k) {
        if i', j' :| SpendsAt(cut, i', j', k) {
          SpendsAtAppend(past, cut, i, j, k);
          SpendsAtAppend(past, cut, |past| + i', j', k);
        }
      }
    }
  }

  lemma NotSpentAgain(first: Spending, rest: Spending, k: KeyImage)
    requires NoDoubleSpend(first + rest) && SpentIn(first, k)
    ensures !SpentIn(rest, k)
  {
    var i, j :| SpendsAt(first, i, j, k);
    SpendsAtAppend(first, rest, i, j, k);
    forall i': nat, j': nat
      ensures !SpendsAt(rest, i', j', k)
    {
      SpendsAtAppend(first, rest, |first| + i', j', k);
    }
  }

  /** A batch checked as a whole: its first part passes, and the rest still passes once that is recorded. */
  lemma BatchSplits(first: Spending, rest: Spending, spent: set<KeyImage>, images: set<KeyImage>)
    requires NoDoubleSpend(first + rest) && SpendsNoneOf(first + rest, spent) && Records(images, first)
    ensures NoDoubleSpend(first) && SpendsNoneOf(first, spent)
    ensures NoDoubleSpend(rest) && SpendsNoneOf(rest, spent + images)
  {
    forall i: nat, j: nat, k
      ensures SpendsAt(first, i, j, k) ==> SpendsAt(first + rest, i, j, k)
      ensures SpendsAt(rest, i, j, k) ==> SpendsAt(first + rest, |first| + i, j, k)
    {
      SpendsAtAppend(first, rest, i, j, k);
      SpendsAtAppend(first, rest, |first| + i, j, k);
    }
    forall i: nat, j: nat, i': nat, j': nat, k | SpendsAt(rest, i, j, k) && SpendsAt(rest, i', j', k)
      ensures i == i' && j == j'
    {
      assert SpendsAt(first + rest, |first| + i, j, k) && SpendsAt(first + rest, |first| + i', j', k);
    }
    forall k | k in spent + images
      ensures !SpentIn(rest, k)
    {
      RecordsAppend(first, rest, k);
      if k in images { NotSpentAgain(first, rest, k); }
    }
    forall k | k in spent
      ensures !SpentIn(first, k)
    {
      RecordsAppend(first, rest, k);
    }
  }
}
