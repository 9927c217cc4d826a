/** The sample exporter (create_dataset.py): walk the training labels in
    order and save each image whose digit still needs samples, numbering
    the files per digit, and stop right after the save that brings every
    digit to a positive quota (a quota of zero or less never stops the
    walk early). The dataset
    itself is an input sequence of labels, and every image write is
    recorded as a `Saved` entry together with the path it goes to. */
module Dataset {

  /** A class label of the digit dataset. */
  type Digit = d: int | 0 <= d < 10

  /** One call of the image writer: the position of the image in the
      dataset, its digit (the folder it goes to) and the number in its
      file name. */
  datatype Saved = Saved(index: nat, digit: Digit, fileNumber: nat)

  // ---------------------------------------------------------------------
  // Specification functions

  /** How many times `d` occurs in `s`. */
  function Occurrences(s: seq<Digit>, d: Digit): (r: nat)
    ensures r <= |s|
  {
    if s == [] then 0
    else Occurrences(s[..|s| - 1], d) + (if s[|s| - 1] == d then 1 else 0)
  }

  /** A quota below zero saves nothing, exactly like a quota of zero. */
  function Quota(n: int): nat
  {
    if n < 0 then 0 else n
  }

  /** The value of a digit's counter once `c` images of that digit have
      been seen under the quota `n`. */
  function Kept(n: int, c: nat): (r: nat)
    ensures r <= c && r <= Quota(n)
    ensures r == c || r == Quota(n)
    ensures r < n <==> c < n
  {
    if c < n then c else Quota(n)
  }

  /** Every digit occurs at least `n` times in `prefix`. */
  predicate AllFull(prefix: seq<Digit>, n: int)
  {
    forall d: Digit :: Occurrences(prefix, d) >= n
  }

  /** The selection rule applied to the first `k` labels: an image is
      saved exactly when fewer than `n` earlier images carry its digit, and
      it is numbered by how many earlier images carry its digit. */
  function Selected(labels: seq<Digit>, n: int, k: nat): seq<Saved>
    requires k <= |labels|
  {
    if k == 0 then []
    else
      var i := k - 1;
      var c := Occurrences(labels[..i], labels[i]);
      Selected(labels, n, i) + (if c < n then [Saved(i, labels[i], c)] else [])
  }

  /** The first position from `k` on at which every digit is full, or the
      end of the labels. */
  function FirstFull(labels: seq<Digit>, n: int, k: nat): (r: nat)
    requires k <= |labels|
    decreases |labels| - k
    ensures k <= r <= |labels|
    ensures r < |labels| ==> AllFull(labels[..r], n)
    ensures forall j :: k <= j < r ==> !AllFull(labels[..j], n)
  {
    if k == |labels| || AllFull(labels[..k], n) then k
    else FirstFull(labels, n, k + 1)
  }

  /** How many labels the exporter consumes before it stops: the shortest
      prefix after which every digit has `n` images, when `n` is positive;
      the whole dataset otherwise. */
  function StopIndex(labels: seq<Digit>, n: int): (r: nat)
    ensures r <= |labels|
    ensures r < |labels| ==> n > 0 && AllFull(labels[..r], n)
    ensures forall k :: 0 <= k < r ==> !(n > 0 && AllFull(labels[..k], n))
  {
    if n <= 0 then |labels| else FirstFull(labels, n, 0)
  }

  /** Number of saved entries for digit `d`. */
  function LabelCount(saved: seq<Saved>, d: Digit): (r: nat)
    ensures r <= |saved|
  {
    if saved == [] then 0
    else LabelCount(saved[..|saved| - 1], d) + (if saved[|saved| - 1].digit == d then 1 else 0)
  }

  // ---------------------------------------------------------------------
  // File names

  /** The decimal digit character for `d`. */
  function DigitChar(d: Digit): (r: char)
    ensures '0' <= r <= '9'
  {
    ('0' as int + d) as char
  }

  /** `str(n)` for a natural number. */
  function Decimal(n: nat): (r: string)
    ensures |r| >= 1 && r[|r| - 1] == DigitChar(n % 10)
    ensures n >= 10 ==> |r| >= 2
  {
    if n < 10 then [DigitChar(n)] else Decimal(n / 10) + [DigitChar(n % 10)]
  }

  /** `os.path.join(a, b)` on POSIX for a `b` that does not start with a
      slash: a separator is inserted unless `a` is empty or already ends
      in one. */
  function Join(a: string, b: string): string
  {
    DirPrefix(a) + b
  }

  /** The directory part of a joined path: `a` itself when it is empty or
      already ends in a slash, `a` and a slash otherwise. */
  function DirPrefix(a: string): string
  {
    if a == [] || a[|a| - 1] == '/' then a else a + "/"
  }

  /** The name of a saved image inside its digit's folder. */
  function FileName(fileNumber: nat): string
  {
    "digit_" + Decimal(fileNumber) + ".png"
  }

  /** The path an image is written to (create_dataset.py:36). */
  function FilePath(outputDir: string, digit: Digit, fileNumber: nat): string
  {
    Join(Join(outputDir, [DigitChar(digit)]), FileName(fileNumber))
  }

  // ---------------------------------------------------------------------
  // The exporter loop

  /** The counters hold, for each digit, its occurrences in `prefix`
      capped at `Quota(n)`, that is max(n, 0). */
  predicate CountersMatch(counts: seq<int>, prefix: seq<Digit>, n: int)
  {
    |counts| == 10 && forall d: Digit :: counts[d] == Kept(n, Occurrences(prefix, d))
  }

  /** `all(count >= n for count in digit_count.values())`. */
  predicate AllAtLeast(counts: seq<int>, n: int)
  {
    forall d :: 0 <= d < |counts| ==> counts[d] >= n
  }

  /** `paths` are the files the entries of `saved` are written to. */
  predicate PathsOf(paths: seq<string>, saved: seq<Saved>, outputDir: string)
  {
    |paths| == |saved| &&
    forall j :: 0 <= j < |saved| ==> paths[j] == FilePath(outputDir, saved[j].digit, saved[j].fileNumber)
  }

  /** No prefix of length up to `i` is full under a positive quota. */
  predicate NoneFullUpTo(labels: seq<Digit>, n: int, i: nat)
    requires i <= |labels|
  {
    forall k :: 0 <= k <= i ==> !(n > 0 && AllFull(labels[..k], n))
  }

  /** The state of the exporter after the first `i` labels: counters,
      writes and paths agree with the selection rule, and no prefix read so
      far has every digit at the quota, so the loop has not stopped. */
  predicate LoopState(labels: seq<Digit>, n: int, outputDir: string, i: nat,
                      counts: seq<int>, saved: seq<Saved>, paths: seq<string>)
  {
    i <= |labels| && CountersMatch(counts, labels[..i], n) && saved == Selected(labels, n, i)
    && PathsOf(paths, saved, outputDir) && NoneFullUpTo(labels, n, i)
  }

  /** The selection loop of `generate_dataset` (create_dataset.py:26-44):
      `saved` lists the image writes in the order they happen, `paths`
      the file each one writes, `counts` the final per-digit counters and
      `processed` how many labels were consumed before the loop ended. */
  method GenerateDataset(labels: seq<Digit>, samplesPerDigit: int, outputDir: string)
    returns (saved: seq<Saved>, paths: seq<string>, counts: seq<int>, processed: nat)
    ensures processed == StopIndex(labels, samplesPerDigit)
    ensures saved == Selected(labels, samplesPerDigit, processed)
    ensures CountersMatch(counts, labels[..processed], samplesPerDigit)
    ensures PathsOf(paths, saved, outputDir)
    ensures forall j1, j2 :: 0 <= j1 < j2 < |paths| ==> paths[j1] != paths[j2]
  {
    var digitCount: seq<int> := seq(10, _ => 0);
    saved, paths := [], [];
    processed := |labels|;
    var i := 0;
    StartState(labels, samplesPerDigit, outputDir);
    while i < |labels|
      invariant processed == |labels|
      invariant LoopState(labels, samplesPerDigit, outputDir, i, digitCount, saved, paths)
    {
      var digit := labels[i];
      if digitCount[digit] < samplesPerDigit {
        SaveStep(labels, samplesPerDigit, outputDir, i, digitCount, saved, paths);
        saved := saved + [Saved(i, digit, digitCount[digit])];
        paths := paths + [FilePath(outputDir, digit, digitCount[digit])];
        digitCount := digitCount[digit := digitCount[digit] + 1];
        if AllAtLeast(digitCount, samplesPerDigit) {
          processed := i + 1;
          StopsAtFirstFull(labels, samplesPerDigit, processed);
          break;
        }
      } else {
        SkipStep(labels, samplesPerDigit, outputDir, i, digitCount, saved, paths);
      }
      i := i + 1;
    }
    counts := digitCount;
    if i == |labels| {
      RunsToEnd(labels, samplesPerDigit);
    }
    SelectedPathsDistinct(labels, samplesPerDigit, processed, outputDir, paths);
  }

  // ---------------------------------------------------------------------
  // Helper facts for the loop

  /** Reading one more label adds one occurrence to its digit only. */
  lemma OccurrencesStep(labels: seq<Digit>, i: nat)
    requires i < |labels|
    ensures forall d: Digit ::
      Occurrences(labels[..i + 1], d) == Occurrences(labels[..i], d) + (if labels[i] == d then 1 else 0)
  {
    assert labels[..i + 1][..i] == labels[..i];
  }

  /** Before the first label every counter is zero and nothing is saved. */
  lemma StartState(labels: seq<Digit>, n: int, outputDir: string)
    ensures LoopState(labels, n, outputDir, 0, seq(10, _ => 0), [], [])
  {
    assert labels[..0] == [];
    assert Occurrences(labels[..0], 0) == 0;
  }

  /** Saving the `i`-th image: the counter moves by one, the write is
      recorded, and the loop either stops because every digit is now full
      or carries on with the state for `i + 1`. */
  lemma SaveStep(labels: seq<Digit>, n: int, outputDir: string, i: nat,
                 counts: seq<int>, saved: seq<Saved>, paths: seq<string>)
    requires i < |labels| && LoopState(labels, n, outputDir, i, counts, saved, paths)
    requires counts[labels[i]] < n
    ensures CountersMatch(counts[labels[i] := counts[labels[i]] + 1], labels[..i + 1], n)
    ensures saved + [Saved(i, labels[i], counts[labels[i]])] == Selected(labels, n, i + 1)
    ensures PathsOf(paths + [FilePath(outputDir, labels[i], counts[labels[i]])],
                    saved + [Saved(i, labels[i], counts[labels[i]])], outputDir)
    ensures AllAtLeast(counts[labels[i] := counts[labels[i]] + 1], n)
      ==> n > 0 && AllFull(labels[..i + 1], n) && NoneFullUpTo(labels, n, i)
    ensures !AllAtLeast(counts[labels[i] := counts[labels[i]] + 1], n)
      ==> LoopState(labels, n, outputDir, i + 1, counts[labels[i] := counts[labels[i]] + 1],
                    saved + [Saved(i, labels[i], counts[labels[i]])],
                    paths + [FilePath(outputDir, labels[i], counts[labels[i]])])
  {
    CounterStep(counts, labels, i, n);
    SelectedStep(labels, n, i);
    PathsOfAppend(paths, saved, outputDir, Saved(i, labels[i], counts[labels[i]]));
    CountersFull(labels[..i + 1], n, counts[labels[i] := counts[labels[i]] + 1]);
    if !(n > 0 && AllFull(labels[..i + 1], n)) {
      NoneFullExtend(labels, n, i);
    }
  }

  /** Skipping the `i`-th image: nothing changes but the position. */
  lemma SkipStep(labels: seq<Digit>, n: int, outputDir: string, i: nat,
                 counts: seq<int>, saved: seq<Saved>, paths: seq<string>)
    requires i < |labels| && LoopState(labels, n, outputDir, i, counts, saved, paths)
    requires counts[labels[i]] >= n
    ensures LoopState(labels, n, outputDir, i + 1, counts, saved, paths)
  {
    CounterStep(counts, labels, i, n);
    SelectedStep(labels, n, i);
    NotFullStep(labels, n, i);
    NoneFullExtend(labels, n, i);
  }

  /** One more label: its digit's counter moves exactly when it is below
      the quota, and then by one; the other counters stay. */
  lemma CounterStep(counts: seq<int>, labels: seq<Digit>, i: nat, n: int)
    requires i < |labels| && CountersMatch(counts, labels[..i], n)
    ensures counts[labels[i]] < n <==> Occurrences(labels[..i], labels[i]) < n
    ensures counts[labels[i]] < n ==>
      counts[labels[i]] == Occurrences(labels[..i], labels[i])
      && CountersMatch(counts[labels[i] := counts[labels[i]] + 1], labels[..i + 1], n)
    ensures counts[labels[i]] >= n ==> CountersMatch(counts, labels[..i + 1], n)
  {
    OccurrencesStep(labels, i);
  }

  /** Recording one more write keeps `paths` in step with `saved`. */
  lemma PathsOfAppend(paths: seq<string>, saved: seq<Saved>, outputDir: string, entry: Saved)
    requires PathsOf(paths, saved, outputDir)
    ensures PathsOf(paths + [FilePath(outputDir, entry.digit, entry.fileNumber)], saved + [entry], outputDir)
  {
  }

  /** One more label appends at most its own entry to the selection. */
  lemma SelectedStep(labels: seq<Digit>, n: int, i: nat)
    requires i < |labels|
    ensures Selected(labels, n, i + 1) == Selected(labels, n, i)
      + (if Occurrences(labels[..i], labels[i]) < n
         then [Saved(i, labels[i], Occurrences(labels[..i], labels[i]))] else [])
  {
  }

  /** Under a positive quota, every counter has reached the quota exactly
      when every digit is full. */
  lemma CountersFull(prefix: seq<Digit>, n: int, counts: seq<int>)
    requires n > 0 && CountersMatch(counts, prefix, n)
    ensures AllAtLeast(counts, n) <==> AllFull(prefix, n)
  {
    if !AllFull(prefix, n) {
      var d: Digit :| Occurrences(prefix, d) < n;
      assert counts[d] < n;
    }
  }

  /** A prefix that is not full extends the run of prefixes that are not. */
  lemma NoneFullExtend(labels: seq<Digit>, n: int, i: nat)
    requires i < |labels| && NoneFullUpTo(labels, n, i)
    requires !(n > 0 && AllFull(labels[..i + 1], n))
    ensures NoneFullUpTo(labels, n, i + 1)
  {
  }

  /** Skipping an image of an already full digit cannot make the prefix
      full. */
  lemma NotFullStep(labels: seq<Digit>, n: int, i: nat)
    requires i < |labels|
    requires Occurrences(labels[..i], labels[i]) >= n
    requires NoneFullUpTo(labels, n, i)
    ensures !(n > 0 && AllFull(labels[..i + 1], n))
  {
    OccurrencesStep(labels, i);
    if n > 0 {
      assert !AllFull(labels[..i], n);
      var d: Digit :| Occurrences(labels[..i], d) < n;
      assert Occurrences(labels[..i + 1], d) < n;
    }
  }

  /** The loop stops at the first full prefix. */
  lemma StopsAtFirstFull(labels: seq<Digit>, n: int, r: nat)
    requires 0 < r <= |labels| && n > 0 && AllFull(labels[..r], n)
    requires NoneFullUpTo(labels, n, r - 1)
    ensures StopIndex(labels, n) == r
  {
  }

  /** With no full prefix the loop walks the whole dataset. */
  lemma RunsToEnd(labels: seq<Digit>, n: int)
    requires NoneFullUpTo(labels, n, |labels|)
    ensures StopIndex(labels, n) == |labels|
  {
  }

  // ---------------------------------------------------------------------
  // Properties of the selection

  /** Counting grows along prefixes. */
  lemma {:induction false} OccurrencesMonotone(s: seq<Digit>, i: nat, j: nat, d: Digit)
    requires i <= j <= |s|
    ensures Occurrences(s[..i], d) <= Occurrences(s[..j], d)
    decreases j - i
  {
    if i < j {
      OccurrencesStep(s, j - 1);
      OccurrencesMonotone(s, i, j - 1, d);
    }
  }

  /** Counters start at zero and never exceed `Quota(n)`, the quota or
      zero when the quota is negative. */
  lemma CountersBounded(labels: seq<Digit>, n: int, k: nat, d: Digit)
    requires k <= |labels|
    ensures k == 0 ==> Kept(n, Occurrences(labels[..k], d)) == 0
    ensures 0 <= Kept(n, Occurrences(labels[..k], d)) <= Quota(n)
  {
  }

  /** Every entry is an image among the first `k`, written to the folder
      of its own digit (no image lands in another digit's folder), under
      the number of earlier images of that digit, which is below the
      quota; entries appear in dataset order. */
  lemma {:induction false} SelectedShape(labels: seq<Digit>, n: int, k: nat)
    requires k <= |labels|
    ensures forall j :: 0 <= j < |Selected(labels, n, k)| ==> Selected(labels, n, k)[j].index < k
    ensures forall j :: 0 <= j < |Selected(labels, n, k)| ==>
      Selected(labels, n, k)[j].digit == labels[Selected(labels, n, k)[j].index]
    ensures forall j :: 0 <= j < |Selected(labels, n, k)| ==>
      Selected(labels, n, k)[j].fileNumber
        == Occurrences(labels[..Selected(labels, n, k)[j].index], Selected(labels, n, k)[j].digit) < n
    ensures forall j1, j2 :: 0 <= j1 < j2 < |Selected(labels, n, k)| ==>
      Selected(labels, n, k)[j1].index < Selected(labels, n, k)[j2].index
  {
    if k > 0 {
      SelectedShape(labels, n, k - 1);
    }
  }

  /** An image among the first `k` is saved exactly when fewer than `n`
      earlier images carry its digit. */
  lemma {:induction false} SavedIff(labels: seq<Digit>, n: int, k: nat, i: nat)
    requires i < k <= |labels|
    ensures (exists j :: 0 <= j < |Selected(labels, n, k)| && Selected(labels, n, k)[j].index == i)
      <==> Occurrences(labels[..i], labels[i]) < n
  {
    var sel := Selected(labels, n, k);
    var prev := Selected(labels, n, k - 1);
    var c := Occurrences(labels[..k - 1], labels[k - 1]);
    SelectedStep(labels, n, k - 1);
    assert forall j :: 0 <= j < |prev| ==> sel[j] == prev[j];
    assert |sel| > |prev| ==> sel[|prev|].index == k - 1;
    if i < k - 1 {
      SavedIff(labels, n, k - 1, i);
    } else if c < n {
      assert sel[|prev|].index == i;
    } else {
      SelectedShape(labels, n, k - 1);
    }
  }

  /** Each digit's number of saved images is its counter: the number of
      its occurrences so far, capped at `Quota(n)`, that is max(n, 0). */
  lemma {:induction false} SelectedCount(labels: seq<Digit>, n: int, k: nat, d: Digit)
    requires k <= |labels|
    ensures LabelCount(Selected(labels, n, k), d) == Kept(n, Occurrences(labels[..k], d))
  {
    if k > 0 {
      var sel := Selected(labels, n, k);
      var prev := Selected(labels, n, k - 1);
      var c := Occurrences(labels[..k - 1], labels[k - 1]);
      SelectedCount(labels, n, k - 1, d);
      OccurrencesStep(labels, k - 1);
      var before := Occurrences(labels[..k - 1], d);
      var after := Occurrences(labels[..k], d);
      var entry := Saved(k - 1, labels[k - 1], c);
      if c < n {
        assert sel == prev + [entry];
        LabelCountAppend(prev, entry, d);
      } else {
        assert sel == prev;
      }
      if labels[k - 1] == d {
        assert after == before + 1 && c == before;
        if c < n {
          assert Kept(n, before) == before && Kept(n, after) == after;
        } else {
          assert Kept(n, before) == Quota(n) == Kept(n, after);
        }
      } else {
        assert after == before;
      }
    } else {
      assert labels[..k] == [];
    }
  }

  /** Appending one entry counts it for its own digit only. */
  lemma LabelCountAppend(saved: seq<Saved>, entry: Saved, d: Digit)
    ensures LabelCount(saved + [entry], d) == LabelCount(saved, d) + (if entry.digit == d then 1 else 0)
  {
    assert (saved + [entry])[..|saved|] == saved;
  }

  /** Each saved image of a digit is numbered by how many images of that
      digit were saved before it, so each folder is filled as 0, 1, 2, ...
      in dataset order. */
  lemma {:induction false} FileNumbersConsecutive(labels: seq<Digit>, n: int, k: nat)
    requires k <= |labels|
    ensures forall j :: 0 <= j < |Selected(labels, n, k)| ==>
      Selected(labels, n, k)[j].fileNumber
        == LabelCount(Selected(labels, n, k)[..j], Selected(labels, n, k)[j].digit)
  {
    if k > 0 {
      var sel := Selected(labels, n, k);
      var prev := Selected(labels, n, k - 1);
      var c := Occurrences(labels[..k - 1], labels[k - 1]);
      FileNumbersConsecutive(labels, n, k - 1);
      forall j | 0 <= j < |sel|
        ensures sel[j].fileNumber == LabelCount(sel[..j], sel[j].digit)
      {
        if j < |prev| {
          assert sel[..j] == prev[..j];
        } else {
          assert sel[..j] == prev;
          SelectedCount(labels, n, k - 1, labels[k - 1]);
        }
      }
    }
  }

  /** Within one digit's folder, file numbers are distinct and increase
      in dataset order. */
  lemma FileNumbersIncrease(labels: seq<Digit>, n: int, k: nat, j1: nat, j2: nat)
    requires k <= |labels|
    requires j1 < j2 < |Selected(labels, n, k)|
    requires Selected(labels, n, k)[j1].digit == Selected(labels, n, k)[j2].digit
    ensures Selected(labels, n, k)[j1].fileNumber < Selected(labels, n, k)[j2].fileNumber
  {
    var sel := Selected(labels, n, k);
    SelectedShape(labels, n, k);
    var i1, i2 := sel[j1].index, sel[j2].index;
    OccurrencesStep(labels, i1);
    OccurrencesMonotone(labels, i1 + 1, i2, sel[j1].digit);
  }

  /** Every number below a digit's final count is used by one of its
      saved images, so the folder holds exactly digit_0 ... digit_(c-1). */
  lemma {:induction false} FileNumbersCover(saved: seq<Saved>, d: Digit, m: nat) returns (j: nat)
    requires NumberedInOrder(saved)
    requires m < LabelCount(saved, d)
    ensures j < |saved| && saved[j].digit == d && saved[j].fileNumber == m
  {
    var last := |saved| - 1;
    var init := saved[..last];
    assert saved == init + [saved[last]];
    LabelCountAppend(init, saved[last], d);
    if m < LabelCount(init, d) {
      NumberedPrefix(saved);
      j := FileNumbersCover(init, d, m);
    } else {
      j := last;
      assert saved[last].fileNumber == LabelCount(init, saved[last].digit);
    }
  }

  /** Each entry's number counts the earlier entries of its digit. */
  predicate NumberedInOrder(saved: seq<Saved>)
  {
    forall j :: 0 <= j < |saved| ==> saved[j].fileNumber == LabelCount(saved[..j], saved[j].digit)
  }

  /** Dropping the last entry keeps the numbering. */
  lemma NumberedPrefix(saved: seq<Saved>)
    requires saved != [] && NumberedInOrder(saved)
    ensures NumberedInOrder(saved[..|saved| - 1])
  {
    var init := saved[..|saved| - 1];
    forall j | 0 <= j < |init|
      ensures init[j].fileNumber == LabelCount(init[..j], init[j].digit)
    {
      assert init[..j] == saved[..j];
    }
  }

  /** The images of digit `d` among the first `k` labels are saved under
      the file numbers 0 up to the digit's counter, each exactly once. */
  lemma FolderContents(labels: seq<Digit>, n: int, k: nat, d: Digit, m: nat)
    requires k <= |labels|
    ensures m < Kept(n, Occurrences(labels[..k], d)) <==>
      exists j :: 0 <= j < |Selected(labels, n, k)|
        && Selected(labels, n, k)[j].digit == d && Selected(labels, n, k)[j].fileNumber == m
  {
    var sel := Selected(labels, n, k);
    SelectedCount(labels, n, k, d);
    FileNumbersConsecutive(labels, n, k);
    assert NumberedInOrder(sel);
    if m < Kept(n, Occurrences(labels[..k], d)) {
      var j := FileNumbersCover(sel, d, m);
    }
    if exists j :: 0 <= j < |sel| && sel[j].digit == d && sel[j].fileNumber == m {
      var j :| 0 <= j < |sel| && sel[j].digit == d && sel[j].fileNumber == m;
      LabelCountPrefix(sel, j, d);
    }
  }

  /** Saved entries before position `j + 1` include entry `j`, so the
      count up to `j` is below the full count when entry `j` has digit `d`. */
  lemma {:induction false} LabelCountPrefix(saved: seq<Saved>, j: nat, d: Digit)
    requires j < |saved| && saved[j].digit == d
    ensures LabelCount(saved[..j], d) < LabelCount(saved, d)
    decreases |saved|
  {
    var last := |saved| - 1;
    if j < last {
      assert saved[..last][..j] == saved[..j];
      LabelCountPrefix(saved[..last], j, d);
    } else {
      assert saved[..last] == saved[..j];
    }
  }

  /** With a quota of zero or less nothing is saved and the whole dataset
      is walked. */
  lemma {:induction false} NonPositiveQuotaSavesNothing(labels: seq<Digit>, n: int, k: nat)
    requires n <= 0 && k <= |labels|
    ensures Selected(labels, n, k) == []
    ensures StopIndex(labels, n) == |labels|
  {
    if k > 0 {
      NonPositiveQuotaSavesNothing(labels, n, k - 1);
    }
  }

  /** The loop stops right after a save: the last digit consumed before
      an early stop was saved, and it was the one that made every digit
      full. */
  lemma StopsAfterSave(labels: seq<Digit>, n: int)
    requires n > 0 && AllFull(labels[..StopIndex(labels, n)], n)
    ensures StopIndex(labels, n) >= 1
    ensures Occurrences(labels[..StopIndex(labels, n) - 1], labels[StopIndex(labels, n) - 1]) < n
  {
    var p := StopIndex(labels, n);
    assert Occurrences(labels[..0], 0) == 0;
    assert !AllFull(labels[..p - 1], n);
    var d: Digit :| Occurrences(labels[..p - 1], d) < n;
    OccurrencesStep(labels, p - 1);
  }

  /** Each digit ends with exactly min(max(quota, 0), its occurrences in
      the whole dataset) samples, whether or not the loop stopped early. */
  lemma FinalCounts(labels: seq<Digit>, n: int, d: Digit)
    ensures Kept(n, Occurrences(labels[..StopIndex(labels, n)], d)) == Kept(n, Occurrences(labels, d))
  {
    var p := StopIndex(labels, n);
    assert labels[..|labels|] == labels;
    OccurrencesMonotone(labels, p, |labels|, d);
  }

  // ---------------------------------------------------------------------
  // Distinct paths

  /** Distinct numbers have distinct decimal forms. */
  lemma {:induction false} DecimalInjective(a: nat, b: nat)
    requires Decimal(a) == Decimal(b)
    ensures a == b
  {
    if a >= 10 && b >= 10 {
      var da, db := Decimal(a), Decimal(b);
      assert da[..|da| - 1] == Decimal(a / 10);
      assert db[..|db| - 1] == Decimal(b / 10);
      DecimalInjective(a / 10, b / 10);
    }
  }

  /** Two images with a different digit or a different number never
      share a path. */
  lemma FilePathInjective(outputDir: string, l1: Digit, n1: nat, l2: Digit, n2: nat)
    requires FilePath(outputDir, l1, n1) == FilePath(outputDir, l2, n2)
    ensures l1 == l2 && n1 == n2
  {
    var p := DirPrefix(outputDir);
    var path1, path2 := FilePath(outputDir, l1, n1), FilePath(outputDir, l2, n2);
    assert DirPrefix(p + [DigitChar(l1)]) == p + [DigitChar(l1)] + "/";
    assert DirPrefix(p + [DigitChar(l2)]) == p + [DigitChar(l2)] + "/";
    assert path1 == p + [DigitChar(l1)] + "/" + FileName(n1);
    assert path2 == p + [DigitChar(l2)] + "/" + FileName(n2);
    assert path1[|p|] == DigitChar(l1) && path2[|p|] == DigitChar(l2);
    assert FileName(n1) == path1[|p| + 2..] && FileName(n2) == path2[|p| + 2..];
    var f1, f2 := FileName(n1), FileName(n2);
    assert Decimal(n1) == f1[6..|f1| - 4];
    assert Decimal(n2) == f2[6..|f2| - 4];
    DecimalInjective(n1, n2);
  }

  /** No two saved images are written to the same file. */
  lemma SelectedPathsDistinct(labels: seq<Digit>, n: int, k: nat, outputDir: string, paths: seq<string>)
    requires k <= |labels|
    requires PathsOf(paths, Selected(labels, n, k), outputDir)
    ensures forall j1, j2 :: 0 <= j1 < j2 < |paths| ==> paths[j1] != paths[j2]
  {
    var sel := Selected(labels, n, k);
    forall j1, j2 | 0 <= j1 < j2 < |paths|
      ensures paths[j1] != paths[j2]
    {
      if paths[j1] == paths[j2] {
        FilePathInjective(outputDir, sel[j1].digit, sel[j1].fileNumber, sel[j2].digit, sel[j2].fileNumber);
        FileNumbersIncrease(labels, n, k, j1, j2);
      }
    }
  }
}
