/**
  The batch conversion of a whole bucket, run one object at a time: list
  every key, keep those the filter admits, convert each, count the
  successes, and swallow each failure so that the batch goes on.
 */
module Batch {
  import opened Results
  import opened Keys
  import opened Conversion
  import opened Listing

  /** Converting `key` ends in success. */
  predicate Succeeds(env: Collaborators, key: string)
  {
    ProcessImage(env, key).completion == Done
  }

  /** The keys the batch converts, in listing order: those the filter admits. */
  function Attempted(keys: seq<string>): (r: seq<string>)
    ensures |r| <= |keys|
  {
    if keys == [] then []
    else
      var last := keys[|keys| - 1];
      assert keys == keys[..|keys| - 1] + [last];
      Attempted(keys[..|keys| - 1]) + (if Eligible(last) then [last] else [])
  }

  /** The keys whose conversion succeeds, in listing order: each adds one to the counter. */
  function Succeeded(env: Collaborators, keys: seq<string>): (r: seq<string>)
  {
    if keys == [] then []
    else
      var last := keys[|keys| - 1];
      Succeeded(env, keys[..|keys| - 1]) + (if Eligible(last) && Succeeds(env, last) then [last] else [])
  }

  /** The calls the batch makes on its collaborators: those of each admitted key, in turn. */
  function BatchCalls(env: Collaborators, keys: seq<string>): (r: seq<Call>)
  {
    if keys == [] then []
    else
      var last := keys[|keys| - 1];
      BatchCalls(env, keys[..|keys| - 1]) + (if Eligible(last) then ProcessImage(env, last).calls else [])
  }

  /** The calls of converting each of `ks` in turn, one whole run per key. */
  function CallsOf(env: Collaborators, ks: seq<string>): seq<Call>
  {
    if ks == [] then [] else CallsOf(env, ks[..|ks| - 1]) + ProcessImage(env, ks[|ks| - 1]).calls
  }

  // ----- what the batch converts and counts -----

  /** Each key is converted once per listing of it if the filter admits it, and never otherwise. */
  lemma {:induction false} AttemptedMultiplicity(keys: seq<string>, key: string)
    ensures multiset(Attempted(keys))[key] == if Eligible(key) then multiset(keys)[key] else 0
  {
    if keys != [] {
      var init := keys[..|keys| - 1];
      assert keys == init + [keys[|keys| - 1]];
      AttemptedMultiplicity(init, key);
    }
  }

  /**
    The calls the batch makes are exactly one run of `ProcessImage` per
    admitted key, in listing order, and nothing else.
   */
  lemma {:induction false} BatchCallsPerAttempted(env: Collaborators, keys: seq<string>)
    ensures BatchCalls(env, keys) == CallsOf(env, Attempted(keys))
  {
    if keys != [] {
      var init := keys[..|keys| - 1];
      var last := keys[|keys| - 1];
      BatchCallsPerAttempted(env, init);
      if Eligible(last) {
        var attempted := Attempted(init) + [last];
        assert attempted[..|attempted| - 1] == Attempted(init);
      } else {
        assert Attempted(keys) == Attempted(init);
      }
    }
  }

  /**
    The counter counts each key once per listing of it when the filter admits
    it and its conversion succeeds, and counts nothing else.
   */
  lemma {:induction false} SucceededMultiplicity(env: Collaborators, keys: seq<string>, key: string)
    ensures multiset(Succeeded(env, keys))[key] ==
      if Eligible(key) && Succeeds(env, key) then multiset(keys)[key] else 0
  {
    if keys != [] {
      var init := keys[..|keys| - 1];
      assert keys == init + [keys[|keys| - 1]];
      SucceededMultiplicity(env, init, key);
    }
  }

  /**
    The final count does not depend on the order the keys come in, so it is
    the same whatever order the conversions complete in.
   */
  lemma CountIgnoresOrder(env: Collaborators, keys: seq<string>, reordered: seq<string>)
    requires multiset(keys) == multiset(reordered)
    ensures |Succeeded(env, keys)| == |Succeeded(env, reordered)|
  {
    forall key
      ensures multiset(Succeeded(env, keys))[key] == multiset(Succeeded(env, reordered))[key]
    {
      SucceededMultiplicity(env, keys, key);
      SucceededMultiplicity(env, reordered, key);
    }
    assert multiset(Succeeded(env, keys)) == multiset(Succeeded(env, reordered));
    assert |multiset(Succeeded(env, keys))| == |multiset(Succeeded(env, reordered))|;
  }

  /**
    The count never exceeds the number of admitted keys, and reaches it
    exactly when every admitted key converts successfully.
   */
  lemma {:induction false} CountBound(env: Collaborators, keys: seq<string>)
    ensures |Succeeded(env, keys)| <= |Attempted(keys)| <= |keys|
    ensures |Succeeded(env, keys)| == |Attempted(keys)| <==>
      forall key :: key in Attempted(keys) ==> Succeeds(env, key)
  {
    if keys != [] {
      var init := keys[..|keys| - 1];
      var last := keys[|keys| - 1];
      CountBound(env, init);
      if Eligible(last) {
        assert Attempted(keys) == Attempted(init) + [last];
        assert last in Attempted(keys);
      } else {
        assert Attempted(keys) == Attempted(init);
        assert Succeeded(env, keys) == Succeeded(env, init);
      }
    }
  }

  /** When every admitted key converts successfully, the batch counts exactly the admitted keys. */
  lemma {:induction false} NothingFailsAllCounted(env: Collaborators, keys: seq<string>)
    requires forall key :: key in Attempted(keys) ==> Succeeds(env, key)
    ensures Succeeded(env, keys) == Attempted(keys)
  {
    if keys != [] {
      var init := keys[..|keys| - 1];
      var last := keys[|keys| - 1];
      assert forall key :: key in Attempted(init) ==> key in Attempted(keys);
      NothingFailsAllCounted(env, init);
      if Eligible(last) {
        assert last in Attempted(keys);
      }
    }
  }

  /** One more key extends the count and the calls by what that key contributes. */
  lemma BatchStep(env: Collaborators, keys: seq<string>, i: nat, earlier: seq<Call>)
    requires i < |keys|
    ensures |Succeeded(env, keys[..i + 1])| ==
      |Succeeded(env, keys[..i])| + (if Eligible(keys[i]) && Succeeds(env, keys[i]) then 1 else 0)
    ensures earlier + BatchCalls(env, keys[..i + 1]) ==
      earlier + BatchCalls(env, keys[..i]) + (if Eligible(keys[i]) then ProcessImage(env, keys[i]).calls else [])
  {
    assert keys[..i + 1][..i] == keys[..i];
    AppendAssoc(earlier, BatchCalls(env, keys[..i]),
                if Eligible(keys[i]) then ProcessImage(env, keys[i]).calls else []);
  }

  /** Splitting the listing splits what the batch counts and calls. */
  lemma {:induction false} BatchAppend(env: Collaborators, before: seq<string>, after: seq<string>)
    ensures Succeeded(env, before + after) == Succeeded(env, before) + Succeeded(env, after)
    ensures BatchCalls(env, before + after) == BatchCalls(env, before) + BatchCalls(env, after)
  {
    if after != [] {
      var init := after[..|after| - 1];
      assert (before + after)[..|before + after| - 1] == before + init;
      assert (before + after)[|before + after| - 1] == after[|after| - 1];
      BatchAppend(env, before, init);
    } else {
      assert before + after == before;
    }
  }

  /**
    A key whose conversion fails is swallowed: it adds nothing to the count,
    and every key around it is still converted and counted as without it.
   */
  lemma FailureIsolated(env: Collaborators, before: seq<string>, key: string, after: seq<string>)
    requires !Succeeds(env, key)
    ensures Succeeded(env, before + [key] + after) == Succeeded(env, before) + Succeeded(env, after)
    ensures BatchCalls(env, before + [key] + after) ==
      BatchCalls(env, before) + BatchCalls(env, [key]) + BatchCalls(env, after)
  {
    var upTo := before + [key];
    BatchAppend(env, upTo, after);
    BatchAppend(env, before, [key]);
    FailedKeyCountsNothing(env, key);
    assert Succeeded(env, upTo) == Succeeded(env, before);
  }

  lemma FailedKeyCountsNothing(env: Collaborators, key: string)
    requires !Succeeds(env, key)
    ensures Succeeded(env, [key]) == []
  {
    assert [key][..0] == [];
  }

  // ----- what the batch does to the object store -----

  /** The batch downloads exactly the keys the filter admits; ineligible keys are never downloaded. */
  lemma {:induction false} DownloadsOnlyAttempted(env: Collaborators, keys: seq<string>, key: string)
    ensures GetObject(key) in BatchCalls(env, keys) <==> key in Attempted(keys)
  {
    if keys != [] {
      var init := keys[..|keys| - 1];
      var last := keys[|keys| - 1];
      DownloadsOnlyAttempted(env, init, key);
      if Eligible(last) {
        DownloadsOwnKey(env, last, key);
        assert BatchCalls(env, keys) == BatchCalls(env, init) + ProcessImage(env, last).calls;
        assert Attempted(keys) == Attempted(init) + [last];
      } else {
        assert BatchCalls(env, keys) == BatchCalls(env, init);
        assert Attempted(keys) == Attempted(init);
      }
    }
  }

  /**
    Every upload of the batch is image/webp content written under the
    destination key of an admitted key, and is itself never admitted.
   */
  lemma {:induction false} UploadsAreDerived(env: Collaborators, keys: seq<string>, request: PutRequest)
    requires PutObject(request) in BatchCalls(env, keys)
    ensures request.contentType == WebpContentType
    ensures !Eligible(request.key)
    ensures exists key :: key in Attempted(keys) && DestKey(key) == Some(request.key)
  {
    var init := keys[..|keys| - 1];
    var last := keys[|keys| - 1];
    if PutObject(request) in BatchCalls(env, init) {
      UploadsAreDerived(env, init, request);
      var key :| key in Attempted(init) && DestKey(key) == Some(request.key);
      assert key in Attempted(keys);
    } else {
      UploadIsWebp(env, last, request);
      assert last in Attempted(keys);
    }
  }

  /** Collaborators that never fail. */
  ghost predicate Reliable(env: Collaborators)
  {
    && (forall key :: env.getObject(key).Some?)
    && (forall bytes :: env.readImage(bytes).Some?)
    && (forall bytes, page, dpi, imageType :: env.renderPdfPage(bytes, page, dpi, imageType).Some?)
    && (forall image :: env.writeWebp(image).Some?)
    && (forall request :: env.putObject(request))
  }

  /** With collaborators that never fail, every key with a `.` converts successfully. */
  lemma ReliableConversionSucceeds(env: Collaborators, key: string)
    requires Reliable(env) && '.' in key
    ensures Succeeds(env, key)
  {
    ProcessImageSucceedsIff(env, key);
    var bytes := env.getObject(key).value;
    assert ConvertToWebp(env, key, bytes).Success? by {
      if ConverterFor(key) == PdfDocument {
        assert env.renderPdfPage(bytes, FirstPage, RenderDpi, RenderImageType).Some?;
      } else {
        assert env.readImage(bytes).Some?;
      }
    }
  }

  lemma ScenarioKeys()
    ensures Eligible("docs/report.pdf") && Eligible("img/x.png") && !Eligible("img/notes.txt")
    ensures '.' in "docs/report.pdf" && '.' in "img/x.png"
  {
    ReportIsEligible();
    PhotoIsEligible();
    NotesIsIneligible();
  }

  lemma ReportIsEligible()
    ensures Eligible("docs/report.pdf") && '.' in "docs/report.pdf"
  {
    var report := "docs/report.pdf";
    assert report[11..] == ".pdf";
    assert LowerKey(".pdf") == ".pdf";
    LowerKeySlice(report, 11);
  }

  lemma PhotoIsEligible()
    ensures Eligible("img/x.png") && '.' in "img/x.png"
  {
    var photo := "img/x.png";
    assert photo[5..] == ".png";
    assert LowerKey(".png") == ".png";
    LowerKeySlice(photo, 5);
  }

  lemma NotesIsIneligible()
    ensures !Eligible("img/notes.txt")
  {
    var notes := "img/notes.txt";
    assert notes[8..] == "s.txt";
    assert LowerKey("s.txt") == "s.txt";
    LowerKeySlice(notes, 8);
    var lowerKey := LowerKey(notes);
    assert lowerKey[|notes| - 4..] == lowerKey[8..][1..];
    assert lowerKey[|notes| - 5..] == lowerKey[8..];
  }

  /**
    A bucket holding `docs/report.pdf`, `img/x.png` and `img/notes.txt`, with
    collaborators that never fail: the PDF and the PNG are converted to
    `webp/docs/report.webp` and `webp/img/x.webp`, the text file is skipped,
    and the count is 2.
   */
  lemma MixedBucketScenario(env: Collaborators)
    requires Reliable(env)
    ensures Attempted(["docs/report.pdf", "img/x.png", "img/notes.txt"]) == ["docs/report.pdf", "img/x.png"]
    ensures |Succeeded(env, ["docs/report.pdf", "img/x.png", "img/notes.txt"])| == 2
    ensures DestKey("docs/report.pdf") == Some("webp/docs/report.webp")
    ensures DestKey("img/x.png") == Some("webp/img/x.webp")
  {
    ScenarioKeys();
    ReliableConversionSucceeds(env, "docs/report.pdf");
    ReliableConversionSucceeds(env, "img/x.png");
    ScenarioBatch(env, "docs/report.pdf", "img/x.png", "img/notes.txt");
    ScenarioDestinations();
  }

  lemma ScenarioDestinations()
    ensures DestKey("docs/report.pdf") == Some("webp/docs/report.webp")
    ensures DestKey("img/x.png") == Some("webp/img/x.webp")
  {
    assert "docs/report.pdf" == "docs/report" + "." + "pdf";
    assert "img/x.png" == "img/x" + "." + "png";
    assert "webp/docs/report.webp" == WebpPrefix + "docs/report" + WebpSuffix;
    assert "webp/img/x.webp" == WebpPrefix + "img/x" + WebpSuffix;
    DestKeyOfSplit("docs/report", "pdf");
    DestKeyOfSplit("img/x", "png");
  }

  lemma ScenarioBatch(env: Collaborators, report: string, photo: string, notes: string)
    requires Eligible(report) && Eligible(photo) && !Eligible(notes)
    requires Succeeds(env, report) && Succeeds(env, photo)
    ensures Attempted([report, photo, notes]) == [report, photo]
    ensures Succeeded(env, [report, photo, notes]) == [report, photo]
  {
    var keys := [report, photo, notes];
    assert keys[..2] == [report, photo] && keys[..2][..1] == [report] && [report][..0] == [];
    assert Attempted([report, photo, notes]) == [report, photo] by {
      assert Attempted([report]) == [report];
      assert Attempted([report, photo]) == [report, photo];
    }
    NothingFailsAllCounted(env, keys);
  }

  /** Proof helper: sequence concatenation is associative. */
  lemma AppendAssoc<T>(a: seq<T>, b: seq<T>, c: seq<T>)
    ensures a + b + c == a + (b + c)
  {
  }

  /** The service: its collaborators, and the counter of objects converted by the latest batch. */
  class ImageService {
    const env: Collaborators
    var processedCount: nat
    /** The calls made on the collaborators so far, oldest first. */
    ghost var log: seq<Call>

    constructor (env: Collaborators)
      ensures this.env == env && processedCount == 0 && log == []
    {
      this.env := env;
      processedCount := 0;
      log := [];
    }

    /**
      Convert one object on request. A failure is returned to the caller;
      the batch counter is left alone.
     */
    method ProcessImage(key: string) returns (completion: Completion)
      modifies this`log
      ensures completion == Conversion.ProcessImage(env, key).completion
      ensures log == old(log) + Conversion.ProcessImage(env, key).calls
    {
      var run := Conversion.ProcessImage(env, key);
      completion := run.completion;
      log := log + run.calls;
    }

    /**
      The handler the batch runs for one admitted key: convert it, count it on
      success, and swallow a failure.
     */
    method ProcessAndCount(key: string)
      modifies this
      ensures processedCount == old(processedCount) + (if Succeeds(env, key) then 1 else 0)
      ensures log == old(log) + Conversion.ProcessImage(env, key).calls
    {
      var run := Conversion.ProcessImage(env, key);
      log := log + run.calls;
      if run.completion == Done {
        processedCount := processedCount + 1;
      }
    }

    /**
      One listed key as the batch pipeline sees it: dropped by the filter, or
      converted and counted on success.
     */
    method FilterAndProcess(key: string)
      modifies this
      ensures processedCount == old(processedCount) + (if Eligible(key) && Succeeds(env, key) then 1 else 0)
      ensures log == old(log) + (if Eligible(key) then Conversion.ProcessImage(env, key).calls else [])
    {
      if Eligible(key) {
        ProcessAndCount(key);
      }
    }

    /**
      Convert every admitted object of the listing given by `pages`: the
      counter restarts from 0 and ends at the number of successes, and the
      calls made are those of each admitted key in listing order.
     */
    method ProcessAllImages(pages: seq<seq<string>>)
      modifies this
      ensures processedCount == |Succeeded(env, ListObjects(pages))|
      ensures log == old(log) + BatchCalls(env, ListObjects(pages))
    {
      processedCount := 0;
      var keys := ListObjects(pages);
      var i := 0;
      while i < |keys|
        invariant 0 <= i <= |keys|
        invariant processedCount == |Succeeded(env, keys[..i])|
        invariant log == old(log) + BatchCalls(env, keys[..i])
      {
        BatchStep(env, keys, i, old(log));
        FilterAndProcess(keys[i]);
        i := i + 1;
      }
      assert keys[..i] == keys;
    }
  }
}
