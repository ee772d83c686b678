/**
 The upload handler's conversion loop. The model takes each item's save fault and
 engine verdict as given, so each outcome is a function of that item alone and the
 loop is stated over the sequence of per-item outcomes; the
 `submitted` list it returns records which items were actually saved and handed to
 the engine, which is what makes "no later item is converted" observable.
 */
module Batch {
  import opened Items

  /** The outcome of every item, in input order. */
  function Outcomes(env: Setting, items: seq<UploadItem>): (os: seq<ItemOutcome>)
    ensures |os| == |items|
    ensures forall j :: 0 <= j < |items| ==> os[j] == Outcome(env, items[j])
  {
    seq(|items|, j requires 0 <= j < |items| => Outcome(env, items[j]))
  }

  /**
   How the loop ends: with the created PDF paths, or at the item whose conversion
   failed or whose save raised. `submitted` lists, in order, the indices of the
   items that were saved and handed to the engine.
   */
  datatype LoopEnd =
    | Completed(created: seq<string>, submitted: seq<nat>)
    | ConversionAborted(index: nat, fileName: string, err: Option<string>, submitted: seq<nat>)
    | Raised(index: nat, message: string, submitted: seq<nat>)

  /** The loop from item `i` on, with `created` and `submitted` accumulated so far. */
  function RunLoop(os: seq<ItemOutcome>, i: nat, created: seq<string>, submitted: seq<nat>): LoopEnd
    requires i <= |os|
    decreases |os| - i
  {
    if i == |os| then Completed(created, submitted)
    else
      match os[i]
      case Skipped => RunLoop(os, i + 1, created, submitted)
      case Converted(path) => RunLoop(os, i + 1, created + [path], submitted + [i])
      case ConversionFailed(name, err) => ConversionAborted(i, name, err, submitted + [i])
      case SaveRaised(message) => Raised(i, message, submitted)
  }

  function ConvertAll(env: Setting, items: seq<UploadItem>): LoopEnd {
    RunLoop(Outcomes(env, items), 0, [], [])
  }

  /*** Reference definitions: the batch described item by item, without the loop ***/

  /** Indices in `[lo, hi)` of the items that were not skipped, in increasing order. */
  function Kept(os: seq<ItemOutcome>, lo: nat, hi: nat): seq<nat>
    requires lo <= hi <= |os|
    decreases hi - lo
  {
    if lo == hi then []
    else (if os[lo].Skipped? then [] else [lo]) + Kept(os, lo + 1, hi)
  }

  /** The paths of the converted items in `[lo, hi)`, in input order. */
  function ConvertedPaths(os: seq<ItemOutcome>, lo: nat, hi: nat): seq<string>
    requires lo <= hi <= |os|
    decreases hi - lo
  {
    if lo == hi then []
    else (if os[lo].Converted? then [os[lo].pdfPath] else []) + ConvertedPaths(os, lo + 1, hi)
  }

  /** `k` is the first item that stops the loop. */
  predicate IsFirstStop(os: seq<ItemOutcome>, k: nat) {
    && k < |os|
    && Stops(os[k])
    && forall j :: 0 <= j < k ==> !Stops(os[j])
  }

  predicate NoStop(os: seq<ItemOutcome>) {
    forall j :: 0 <= j < |os| ==> !Stops(os[j])
  }

  /*** Properties of the reference definitions ***/

  /** `Kept` lists exactly the non-skipped indices of the range, strictly increasing. */
  lemma {:induction false} KeptSpec(os: seq<ItemOutcome>, lo: nat, hi: nat)
    requires lo <= hi <= |os|
    ensures forall j :: j in Kept(os, lo, hi) <==> lo <= j < hi && !os[j].Skipped?
    ensures forall a, b :: 0 <= a < b < |Kept(os, lo, hi)| ==> Kept(os, lo, hi)[a] < Kept(os, lo, hi)[b]
    decreases hi - lo
  {
    if lo < hi {
      KeptSpec(os, lo + 1, hi);
      var rest := Kept(os, lo + 1, hi);
      assert forall t :: 0 <= t < |rest| ==> lo < rest[t] by {
        forall t | 0 <= t < |rest|
          ensures lo < rest[t]
        {
          assert rest[t] in rest;
        }
      }
    }
  }

  /** `Kept` is empty exactly when every item of the range was skipped. */
  lemma {:induction false} KeptEmpty(os: seq<ItemOutcome>, lo: nat, hi: nat)
    requires lo <= hi <= |os|
    ensures Kept(os, lo, hi) == [] <==> forall j :: lo <= j < hi ==> os[j].Skipped?
    decreases hi - lo
  {
    if lo < hi {
      KeptEmpty(os, lo + 1, hi);
    }
  }

  /** The `t`-th converted path in `[lo, hi)` belongs to the `t`-th kept item, which converted. */
  predicate Aligned(os: seq<ItemOutcome>, lo: nat, hi: nat)
    requires lo <= hi <= |os|
  {
    var k, p := Kept(os, lo, hi), ConvertedPaths(os, lo, hi);
    && |p| == |k|
    && forall t :: 0 <= t < |k| ==> k[t] < |os| && os[k[t]].Converted? && p[t] == os[k[t]].pdfPath
  }

  lemma AlignedStep(os: seq<ItemOutcome>, lo: nat, hi: nat)
    requires lo < hi <= |os| && !Stops(os[lo])
    requires Aligned(os, lo + 1, hi)
    ensures Aligned(os, lo, hi)
  {
    var ks, ps := Kept(os, lo + 1, hi), ConvertedPaths(os, lo + 1, hi);
    if os[lo].Skipped? {
      assert Kept(os, lo, hi) == ks;
      assert ConvertedPaths(os, lo, hi) == ps;
    } else {
      var k, p := [lo] + ks, [os[lo].pdfPath] + ps;
      assert Kept(os, lo, hi) == k;
      assert ConvertedPaths(os, lo, hi) == p;
      forall t | 0 < t < |k|
        ensures k[t] < |os| && os[k[t]].Converted? && p[t] == os[k[t]].pdfPath
      {
        assert k[t] == ks[t - 1] && p[t] == ps[t - 1];
      }
    }
  }

  /** Without a stopping item, the converted paths line up with the kept indices. */
  lemma {:induction false} ConvertedPathsAlign(os: seq<ItemOutcome>, lo: nat, hi: nat)
    requires lo <= hi <= |os|
    requires forall j :: lo <= j < hi ==> !Stops(os[j])
    ensures Aligned(os, lo, hi)
    decreases hi - lo
  {
    if lo < hi {
      ConvertedPathsAlign(os, lo + 1, hi);
      AlignedStep(os, lo, hi);
    }
  }

  /*** Properties of the loop ***/

  /** One step of the loop over an item that does not stop it. */
  lemma RunLoopStep(os: seq<ItemOutcome>, i: nat, created: seq<string>, submitted: seq<nat>)
    requires i < |os| && !Stops(os[i])
    ensures RunLoop(os, i, created, submitted)
         == RunLoop(os, i + 1, created + ConvertedPaths(os, i, i + 1), submitted + Kept(os, i, i + 1))
  {
    if os[i].Skipped? {
      assert created + ConvertedPaths(os, i, i + 1) == created;
      assert submitted + Kept(os, i, i + 1) == submitted;
    } else {
      assert os[i].Converted?;
      assert ConvertedPaths(os, i, i + 1) == [os[i].pdfPath] + [] == [os[i].pdfPath];
      assert Kept(os, i, i + 1) == [i] + [] == [i];
    }
  }

  /** The reference definitions split at the first item of the range. */
  lemma SplitFirst(os: seq<ItemOutcome>, lo: nat, hi: nat)
    requires lo < hi <= |os|
    ensures ConvertedPaths(os, lo, hi) == ConvertedPaths(os, lo, lo + 1) + ConvertedPaths(os, lo + 1, hi)
    ensures Kept(os, lo, hi) == Kept(os, lo, lo + 1) + Kept(os, lo + 1, hi)
  {
    var p: seq<string> := if os[lo].Converted? then [os[lo].pdfPath] else [];
    var q: seq<nat> := if os[lo].Skipped? then [] else [lo];
    assert ConvertedPaths(os, lo, lo + 1) == p + [] == p;
    assert Kept(os, lo, lo + 1) == q + [] == q;
  }

  /** Without a stopping item the loop runs to the end, creating one PDF per item not skipped. */
  lemma {:induction false} RunLoopCompletes(os: seq<ItemOutcome>, i: nat, created: seq<string>, submitted: seq<nat>)
    requires i <= |os|
    requires forall j :: i <= j < |os| ==> !Stops(os[j])
    ensures RunLoop(os, i, created, submitted)
         == Completed(created + ConvertedPaths(os, i, |os|), submitted + Kept(os, i, |os|))
    decreases |os| - i
  {
    if i == |os| {
      assert created + ConvertedPaths(os, i, |os|) == created;
      assert submitted + Kept(os, i, |os|) == submitted;
    } else {
      var created', submitted' := created + ConvertedPaths(os, i, i + 1), submitted + Kept(os, i, i + 1);
      RunLoopStep(os, i, created, submitted);
      RunLoopCompletes(os, i + 1, created', submitted');
      SplitFirst(os, i, |os|);
      assert created' + ConvertedPaths(os, i + 1, |os|) == created + ConvertedPaths(os, i, |os|);
      assert submitted' + Kept(os, i + 1, |os|) == submitted + Kept(os, i, |os|);
    }
  }

  /** The loop ends at the first stopping item, having submitted exactly the kept items before it. */
  lemma {:induction false} RunLoopStops(os: seq<ItemOutcome>, i: nat, created: seq<string>, submitted: seq<nat>, k: nat)
    requires i <= k < |os|
    requires Stops(os[k])
    requires forall j :: i <= j < k ==> !Stops(os[j])
    ensures os[k].ConversionFailed? ==>
      RunLoop(os, i, created, submitted) == ConversionAborted(k, os[k].fileName, os[k].err, submitted + Kept(os, i, k) + [k])
    ensures os[k].SaveRaised? ==>
      RunLoop(os, i, created, submitted) == Raised(k, os[k].message, submitted + Kept(os, i, k))
    decreases k - i
  {
    if i == k {
      assert submitted + Kept(os, i, k) == submitted;
    } else {
      var created', submitted' := created + ConvertedPaths(os, i, i + 1), submitted + Kept(os, i, i + 1);
      RunLoopStep(os, i, created, submitted);
      RunLoopStops(os, i + 1, created', submitted', k);
      SplitFirst(os, i, k);
      assert submitted' + Kept(os, i + 1, k) == submitted + Kept(os, i, k);
    }
  }

  /** When some item stops the loop, there is a first one. */
  lemma {:induction false} FirstStopExists(os: seq<ItemOutcome>, j: nat)
    requires j < |os| && Stops(os[j])
    ensures exists k :: IsFirstStop(os, k)
    decreases j
  {
    if exists j' :: 0 <= j' < j && Stops(os[j']) {
      var j' :| 0 <= j' < j && Stops(os[j']);
      FirstStopExists(os, j');
    } else {
      assert IsFirstStop(os, j);
    }
  }

  /**
   The loop over any outcomes: it completes exactly when no item stops it, with
   one created path per kept item; otherwise it ends at the first stopping item and
   nothing after that item is submitted.
   */
  lemma LoopSpec(os: seq<ItemOutcome>)
    ensures RunLoop(os, 0, [], []).Completed? <==> NoStop(os)
    ensures NoStop(os) ==> RunLoop(os, 0, [], []) == Completed(ConvertedPaths(os, 0, |os|), Kept(os, 0, |os|))
    ensures !RunLoop(os, 0, [], []).Completed? ==>
      var r := RunLoop(os, 0, [], []);
      && IsFirstStop(os, r.index)
      && (r.ConversionAborted? ==> r.submitted == Kept(os, 0, r.index) + [r.index])
      && (r.Raised? ==> r.submitted == Kept(os, 0, r.index))
  {
    if NoStop(os) {
      RunLoopCompletes(os, 0, [], []);
    } else {
      var j :| 0 <= j < |os| && Stops(os[j]);
      FirstStopExists(os, j);
      var k :| IsFirstStop(os, k);
      RunLoopStops(os, 0, [], [], k);
    }
  }

  /** The kept indices of a request's outcomes are the items whose names pass the filter, in order. */
  lemma KeptAreAccepted(env: Setting, items: seq<UploadItem>, lo: nat, hi: nat)
    requires lo <= hi <= |items|
    ensures var kept := Kept(Outcomes(env, items), lo, hi);
      && (forall j :: j in kept <==> lo <= j < hi && Accepted(ItemName(env, items[j])))
      && (forall a, b :: 0 <= a < b < |kept| ==> kept[a] < kept[b])
  {
    KeptSpec(Outcomes(env, items), lo, hi);
  }

  /** No index is kept exactly when no item's name passes the filter. */
  lemma KeptEmptyIffNoneAccepted(env: Setting, items: seq<UploadItem>)
    ensures Kept(Outcomes(env, items), 0, |items|) == [] <==> forall j :: 0 <= j < |items| ==> !Accepted(ItemName(env, items[j]))
  {
    KeptEmpty(Outcomes(env, items), 0, |items|);
  }

  /**
   Without a stopping item the loop of one request completes; it has saved and
   submitted exactly the items whose names pass the filter, in input order, and
   created one PDF path per submitted item.
   */
  lemma ConvertAllCompletes(env: Setting, items: seq<UploadItem>)
    requires forall j :: 0 <= j < |items| ==> !Stops(Outcome(env, items[j]))
    ensures ConvertAll(env, items).Completed?
    ensures ConvertAll(env, items).submitted == Kept(Outcomes(env, items), 0, |items|)
    ensures var r := ConvertAll(env, items);
      && (forall j :: j in r.submitted <==> 0 <= j < |items| && Accepted(ItemName(env, items[j])))
      && (forall a, b :: 0 <= a < b < |r.submitted| ==> r.submitted[a] < r.submitted[b])
    ensures var r := ConvertAll(env, items);
      r.created == [] <==> forall j :: 0 <= j < |items| ==> !Accepted(ItemName(env, items[j]))
    ensures var r := ConvertAll(env, items);
      && |r.created| == |r.submitted|
      && forall t :: 0 <= t < |r.created| ==>
           r.submitted[t] < |items| && r.created[t] == PdfPath(env.root, ItemName(env, items[r.submitted[t]]))
  {
    var os := Outcomes(env, items);
    LoopSpec(os);
    KeptAreAccepted(env, items, 0, |items|);
    KeptEmptyIffNoneAccepted(env, items);
    ConvertedPathsAlign(os, 0, |os|);
  }

  /**
   The loop of one request stops at its first stopping item `k`: with the
   conversion failure of `k`, or with the exception saving `k` raised.
   */
  lemma ConvertAllStops(env: Setting, items: seq<UploadItem>, k: nat)
    requires k < |items| && Stops(Outcome(env, items[k]))
    requires forall j :: 0 <= j < k ==> !Stops(Outcome(env, items[j]))
    ensures var r := ConvertAll(env, items);
      && (Outcome(env, items[k]).ConversionFailed? ==>
            && r == ConversionAborted(k, ItemName(env, items[k]), items[k].verdict.err, r.submitted)
            && r.submitted == Kept(Outcomes(env, items), 0, k) + [k])
      && (Outcome(env, items[k]).SaveRaised? ==>
            && items[k].saveFault.Some?
            && r == Raised(k, items[k].saveFault.value, r.submitted)
            && r.submitted == Kept(Outcomes(env, items), 0, k))
  {
    var os := Outcomes(env, items);
    assert os[k] == Outcome(env, items[k]);
    RunLoopStops(os, 0, [], [], k);
  }

  /**
   When the loop of one request stops at item `k`, it has saved and submitted the
   accepted items before `k` in input order, and `k` itself only when `k` reached
   the engine: nothing after `k` was saved or submitted.
   */
  lemma ConvertAllStopsSubmitted(env: Setting, items: seq<UploadItem>, k: nat)
    requires k < |items| && Stops(Outcome(env, items[k]))
    requires forall j :: 0 <= j < k ==> !Stops(Outcome(env, items[j]))
    ensures var r := ConvertAll(env, items);
      && !r.Completed?
      && (forall j :: j in r.submitted <==> (0 <= j < k && Accepted(ItemName(env, items[j]))) || (j == k && r.ConversionAborted?))
      && (forall a, b :: 0 <= a < b < |r.submitted| ==> r.submitted[a] < r.submitted[b])
  {
    ConvertAllStops(env, items, k);
    KeptAreAccepted(env, items, 0, k);
    var kept := Kept(Outcomes(env, items), 0, k);
    assert forall t :: 0 <= t < |kept| ==> kept[t] < k by {
      forall t | 0 <= t < |kept|
        ensures kept[t] < k
      {
        assert kept[t] in kept;
      }
    }
  }

  /** The loop of one request completes exactly when none of its items stops it. */
  lemma ConvertAllCompletesIff(env: Setting, items: seq<UploadItem>)
    ensures ConvertAll(env, items).Completed? <==> forall j :: 0 <= j < |items| ==> !Stops(Outcome(env, items[j]))
  {
    LoopSpec(Outcomes(env, items));
  }
}
