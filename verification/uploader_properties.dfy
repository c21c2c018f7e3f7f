/** Properties of the uploader's admission and removal logic. */
module UploaderProperties {

  import opened Wrappers
  import Decimal
  import opened Uploader

  /** Positions within a window of the files `Admitted` keeps. */
  function AdmittedIndices(limits: Limits, w: seq<Candidate>): (pos: seq<nat>)
    ensures |pos| == |Admitted(limits, w)|
    ensures forall j :: 0 <= j < |pos| ==> pos[j] < |w|
    decreases |w|
  {
    if w == [] then []
    else
      var p := AdmittedIndices(limits, w[..|w| - 1]);
      if Admissible(limits, w[|w| - 1]) then p + [|w| - 1] else p
  }

  lemma {:induction false} AdmittedIndicesSelect(limits: Limits, w: seq<Candidate>)
    ensures forall j :: 0 <= j < |AdmittedIndices(limits, w)| ==>
              Admitted(limits, w)[j] == w[AdmittedIndices(limits, w)[j]]
    decreases |w|
  {
    if w != [] {
      var n := |w| - 1;
      var init := w[..n];
      AdmittedIndicesSelect(limits, init);
      var p := AdmittedIndices(limits, init);
      assert forall j :: 0 <= j < |p| ==> init[p[j]] == w[p[j]];
    }
  }

  lemma {:induction false} AdmittedIndicesIncrease(limits: Limits, w: seq<Candidate>)
    ensures forall j, k :: 0 <= j < k < |AdmittedIndices(limits, w)| ==>
              AdmittedIndices(limits, w)[j] < AdmittedIndices(limits, w)[k]
    decreases |w|
  {
    if w != [] {
      AdmittedIndicesIncrease(limits, w[..|w| - 1]);
    }
  }

  lemma {:induction false} AdmittedIndicesComplete(limits: Limits, w: seq<Candidate>)
    ensures forall i :: 0 <= i < |w| && Admissible(limits, w[i]) ==> i in AdmittedIndices(limits, w)
    decreases |w|
  {
    if w != [] {
      var n := |w| - 1;
      var init := w[..n];
      AdmittedIndicesComplete(limits, init);
      var p := AdmittedIndices(limits, init);
      var pos := AdmittedIndices(limits, w);
      assert pos == p || pos == p + [n];
      forall i | 0 <= i < |w| && Admissible(limits, w[i])
        ensures i in pos
      {
        if i < n {
          assert init[i] == w[i];
          assert i in p;
        } else {
          assert pos == p + [n];
          assert pos[|p|] == n;
        }
      }
    }
  }

  /** The admitted files of a window are exactly its admissible files, in
      order: `pos` enumerates, strictly increasing, every admissible position
      and no other. */
  lemma AdmittedEnumeratesAdmissible(limits: Limits, w: seq<Candidate>) returns (pos: seq<nat>)
    ensures |pos| == |Admitted(limits, w)|
    ensures forall j :: 0 <= j < |pos| ==> pos[j] < |w| && Admitted(limits, w)[j] == w[pos[j]]
    ensures forall j :: 0 <= j < |pos| ==> Admissible(limits, w[pos[j]])
    ensures forall j, k :: 0 <= j < k < |pos| ==> pos[j] < pos[k]
    ensures forall i :: 0 <= i < |w| && Admissible(limits, w[i]) ==> i in pos
  {
    pos := AdmittedIndices(limits, w);
    AdmittedIndicesSelect(limits, w);
    AdmittedIndicesIncrease(limits, w);
    AdmittedIndicesComplete(limits, w);
    forall j | 0 <= j < |pos|
      ensures Admissible(limits, w[pos[j]])
    {
      assert Admitted(limits, w)[j] in Admitted(limits, w);
    }
  }

  /** The message a window leaves is absent exactly when every file passes,
      and otherwise is the rejection of the last file that fails. */
  lemma {:induction false} LastRejectionIsLatest(limits: Limits, w: seq<Candidate>)
    ensures LastRejection(limits, w).None? <==> forall i :: 0 <= i < |w| ==> Admissible(limits, w[i])
    ensures forall j ::
              0 <= j < |w| && !Admissible(limits, w[j]) && (forall k :: j < k < |w| ==> Admissible(limits, w[k])) ==>
                LastRejection(limits, w) == Validate(limits, w[j])
    decreases |w|
  {
    if w != [] {
      var n := |w| - 1;
      var init := w[..n];
      LastRejectionIsLatest(limits, init);
      assert forall i :: 0 <= i < n ==> init[i] == w[i];
    }
  }

  /** When the batch fits in the free slots every file is examined, and the
      message is the last rejection's (none when all pass); when it does not
      fit, the capacity message wins over any per-file message. */
  lemma IngestMessage(limits: Limits, ui: Uploader, fs: seq<Candidate>)
    ensures ExceedsCapacity(limits, |ui.images|, |fs|) ==>
              Ingest(limits, ui, Some(fs)).after.error == Some(CapacityExceeded(limits.maxImages))
    ensures !ExceedsCapacity(limits, |ui.images|, |fs|) ==> Examined(limits, |ui.images|, |fs|) == |fs|
    ensures !ExceedsCapacity(limits, |ui.images|, |fs|) ==>
              (Ingest(limits, ui, Some(fs)).after.error.None? <==> forall i :: 0 <= i < |fs| ==> Admissible(limits, fs[i]))
    ensures !ExceedsCapacity(limits, |ui.images|, |fs|) ==>
              forall j ::
                0 <= j < |fs| && !Admissible(limits, fs[j]) && (forall k :: j < k < |fs| ==> Admissible(limits, fs[k])) ==>
                  Ingest(limits, ui, Some(fs)).after.error == Validate(limits, fs[j])
  {
    if !ExceedsCapacity(limits, |ui.images|, |fs|) {
      assert fs[..|fs|] == fs;
      LastRejectionIsLatest(limits, fs);
    }
  }

  /** The new list is the old one followed by exactly the admissible files
      among the first `Examined` of the batch, in batch order: a file past
      that window is never looked at, even when an earlier one was rejected. */
  lemma IngestAdmitsExactly(limits: Limits, ui: Uploader, fs: seq<Candidate>) returns (pos: seq<nat>)
    ensures forall j :: 0 <= j < |pos| ==> pos[j] < Examined(limits, |ui.images|, |fs|) && Admissible(limits, fs[pos[j]])
    ensures var images := Ingest(limits, ui, Some(fs)).after.images;
            && |images| == |ui.images| + |pos|
            && images[..|ui.images|] == ui.images
            && (forall j :: 0 <= j < |pos| ==> images[|ui.images| + j] == fs[pos[j]])
    ensures forall j, k :: 0 <= j < k < |pos| ==> pos[j] < pos[k]
    ensures forall i :: 0 <= i < Examined(limits, |ui.images|, |fs|) && Admissible(limits, fs[i]) ==> i in pos
  {
    var k := Examined(limits, |ui.images|, |fs|);
    var window := fs[..k];
    pos := AdmittedEnumeratesAdmissible(limits, window);
    assert forall i :: 0 <= i < k ==> window[i] == fs[i];
  }

  /** Only the examined prefix of a batch matters: two batches of the same
      length that agree on it give the same outcome. */
  lemma AdmissionIgnoresTail(limits: Limits, ui: Uploader, fs: seq<Candidate>, gs: seq<Candidate>)
    requires |fs| == |gs|
    requires fs[..Examined(limits, |ui.images|, |fs|)] == gs[..Examined(limits, |ui.images|, |gs|)]
    ensures Ingest(limits, ui, Some(fs)) == Ingest(limits, ui, Some(gs))
  {
  }

  /** An oversized file inside a short window: three images held, the default
      limits, and a batch of four whose second file is a 10 MB image. Only two
      files are examined, the oversized one is skipped and not replaced, so
      one file joins (four in all), and the capacity message is shown. */
  lemma OversizedFileInShortWindow()
    ensures var ok := Candidate("image/png", 1024 * 1024);
            var big := Candidate("image/png", 10 * 1024 * 1024);
            var held := [ok, ok, ok];
            var r := Ingest(DefaultLimits, Uploader(held, None), Some([ok, big, ok, ok]));
            && r.after.images == held + [ok]
            && r.changed == Some(held + [ok])
            && r.after.error == Some(CapacityExceeded(5))
            && Message(r.after.error.value) == "You can only upload 5 images total"
  {
    var ok := Candidate("image/png", 1024 * 1024);
    var big := Candidate("image/png", 10 * 1024 * 1024);
    var batch := [ok, big, ok, ok];
    assert "image/png"[..|ImagePrefix|] == ImagePrefix;
    assert Admissible(DefaultLimits, ok);
    assert !Admissible(DefaultLimits, big);
    assert Examined(DefaultLimits, 3, 4) == 2;
    assert batch[..2] == [ok, big];
    assert [ok, big][..1] == [ok];
    assert [ok][..0] == [];
    assert Admitted(DefaultLimits, [ok]) == [ok];
    assert Admitted(DefaultLimits, [ok, big]) == [ok];
    assert Decimal.Show(5) == "5";
  }

  /** The size check is inclusive: a file of exactly `maxSizeMB` MiB passes,
      one byte more is rejected with the size message. */
  lemma SizeBoundary(limits: Limits, mimeType: string)
    requires IsImageType(mimeType)
    ensures Admissible(limits, Candidate(mimeType, limits.maxSizeMB * 1048576))
    ensures Validate(limits, Candidate(mimeType, limits.maxSizeMB * 1048576 + 1)) == Some(TooLarge(limits.maxSizeMB))
  {
  }

  /** Each rejection renders to its own text, so the shown message identifies
      the rejection (including the number it quotes). */
  lemma MessageInjective(a: Rejection, b: Rejection)
    ensures Message(a) == Message(b) ==> a == b
  {
    if Message(a) == Message(b) {
      match a
      case InvalidType =>
        assert Message(a)[0] == 'O';
      case TooLarge(x) =>
        var p := "File size must be less than ";
        var m := Message(a);
        assert m[0] == 'F';
        assert b.TooLarge?;
        assert m == p + Decimal.Show(x) + "MB";
        assert m == p + Decimal.Show(b.maxSizeMB) + "MB";
        assert m[|p|..|m| - 2] == Decimal.Show(x);
        assert m[|p|..|m| - 2] == Decimal.Show(b.maxSizeMB);
        Decimal.ShowInjective(x, b.maxSizeMB);
      case CapacityExceeded(x) =>
        var p := "You can only upload ";
        var q := " images total";
        var m := Message(a);
        assert m[0] == 'Y';
        assert b.CapacityExceeded?;
        assert m == p + Decimal.Show(x) + q;
        assert m == p + Decimal.Show(b.maxImages) + q;
        assert m[|p|..|m| - |q|] == Decimal.Show(x);
        assert m[|p|..|m| - |q|] == Decimal.Show(b.maxImages);
        Decimal.ShowInjective(x, b.maxImages);
    }
  }

  /** While disabled, a batch (dropped onto the zone, which stays live) admits
      nothing, does not notify, and a non-empty one shows the capacity
      message. */
  lemma DisabledAdmitsNothing(limits: Limits, ui: Uploader, fs: seq<Candidate>)
    requires IsDisabled(limits, ui)
    ensures Ingest(limits, ui, Some(fs)).after.images == ui.images
    ensures Ingest(limits, ui, Some(fs)).changed.None?
    ensures |fs| > 0 ==> Ingest(limits, ui, Some(fs)).after.error == Some(CapacityExceeded(limits.maxImages))
  {
  }

  /** A one-file window holding a passing file keeps it and leaves no
      message. */
  lemma OneFileWindow(limits: Limits, c: Candidate)
    requires Admissible(limits, c)
    ensures Admitted(limits, [c]) == [c]
    ensures LastRejection(limits, [c]) == None
  {
  }

  /** While enabled, a single admissible file is appended and reported. */
  lemma EnabledAdmitsOne(limits: Limits, ui: Uploader, c: Candidate)
    requires !IsDisabled(limits, ui)
    requires Admissible(limits, c)
    ensures Ingest(limits, ui, Some([c])) == Reaction(Uploader(ui.images + [c], None), Some(ui.images + [c]))
  {
    assert |ui.images| < limits.maxImages;
    assert Examined(limits, |ui.images|, 1) == 1;
    assert !ExceedsCapacity(limits, |ui.images|, 1);
    assert [c][..1] == [c];
    OneFileWindow(limits, c);
  }

  /** Filtering out a position the list does not have keeps the list. */
  lemma {:induction false} DropIndexOutside<T>(xs: seq<T>, index: int)
    requires !(0 <= index < |xs|)
    ensures DropIndex(xs, index) == xs
    decreases |xs|
  {
    if xs != [] {
      DropIndexOutside(xs[1..], index - 1);
      assert [xs[0]] + xs[1..] == xs;
    }
  }

  /** Filtering out a position the list has cuts exactly that element. */
  lemma {:induction false} DropIndexInside<T>(xs: seq<T>, index: int)
    requires 0 <= index < |xs|
    ensures DropIndex(xs, index) == xs[..index] + xs[index + 1..]
    decreases |xs|
  {
    var tail := xs[1..];
    if index == 0 {
      DropIndexOutside(tail, -1);
      assert xs[..0] + xs[1..] == tail;
    } else {
      DropIndexInside(tail, index - 1);
      var front := tail[..index - 1];
      var back := tail[index..];
      assert [xs[0]] + front == xs[..index];
      assert back == xs[index + 1..];
      calc {
        DropIndex(xs, index);
        [xs[0]] + DropIndex(tail, index - 1);
        [xs[0]] + (front + back);
        ([xs[0]] + front) + back;
      }
    }
  }

  /** Filtering out one position: in range it cuts exactly that element,
      out of range it keeps the list. */
  lemma {:induction false} DropIndexCuts<T>(xs: seq<T>, index: int)
    ensures 0 <= index < |xs| ==> DropIndex(xs, index) == xs[..index] + xs[index + 1..]
    ensures !(0 <= index < |xs|) ==> DropIndex(xs, index) == xs
  {
    if 0 <= index < |xs| {
      DropIndexInside(xs, index);
    } else {
      DropIndexOutside(xs, index);
    }
  }

  /** `removeImage(k)` for a valid `k` yields one element fewer, every other
      element kept in its relative order; an invalid `k` keeps the list. The
      message is cleared and the parent notified in both cases. */
  lemma RemoveImageKeepsOthers(ui: Uploader, k: int)
    ensures var r := RemoveImage(ui, k);
            && r.after.error.None?
            && r.changed == Some(r.after.images)
            && (0 <= k < |ui.images| ==>
                  && |r.after.images| == |ui.images| - 1
                  && (forall j :: 0 <= j < k ==> r.after.images[j] == ui.images[j])
                  && (forall j :: k <= j < |ui.images| - 1 ==> r.after.images[j] == ui.images[j + 1]))
            && (!(0 <= k < |ui.images|) ==> r.after.images == ui.images)
  {
    DropIndexCuts(ui.images, k);
  }

  /** Removing the image a one-file batch just added restores the list. */
  lemma RemoveUndoesAdmission(limits: Limits, ui: Uploader, c: Candidate)
    requires !IsDisabled(limits, ui)
    requires Admissible(limits, c)
    ensures RemoveImage(Ingest(limits, ui, Some([c])).after, |ui.images|).after.images == ui.images
  {
    EnabledAdmitsOne(limits, ui, c);
    DropIndexCuts(ui.images + [c], |ui.images|);
    assert (ui.images + [c])[..|ui.images|] == ui.images;
  }

  /** The bound `images.length <= maxImages` survives any sequence of batches
      and removals. */
  lemma {:induction false} ReplayKeepsCapacity(limits: Limits, ui: Uploader, es: seq<UploaderEvent>)
    requires |ui.images| <= limits.maxImages
    ensures |Replay(limits, ui, es).images| <= limits.maxImages
    decreases |es|
  {
    if es != [] {
      var next := Apply(limits, ui, es[0]);
      if es[0].RemoveClicked? {
        DropIndexCuts(ui.images, es[0].index);
      }
      ReplayKeepsCapacity(limits, next, es[1..]);
    }
  }
}
