/** What ParseObjects and unpackEntryData of pkg/pack/packfile.go are proved
    to do, stated over the whole file: the runs of Inflate calls on an
    object's compressed data, the outcome a run ends in, and the walk of
    headers and data from one object to the next that ParseObjects makes. */
module PackWalk {
  import opened PackFormat
  import opened ZStream

  /** One catalog entry: where the object's header starts, its type and its
      declared uncompressed size. */
  datatype Object = Object(offset: u32, kind: ObjectType, size: u64)

  /** Go's `error` result: nil or an error. */
  datatype Outcome = Pass | Fail(error: Error)

  /** `o` is the catalog entry for an object whose header starts at index `at`. */
  ghost predicate Describes(s: seq<byte>, at: nat, o: Object)
  {
    o.offset == at % Two32 &&
    DecodeObjectHeader(s, at).Ok? &&
    o.kind == DecodeObjectHeader(s, at).value.kind &&
    o.size == DecodeObjectHeader(s, at).value.size
  }

  /** The object whose header starts at `at` ends its header no later than `b`. */
  ghost predicate HeaderBefore(s: seq<byte>, at: nat, b: nat)
  {
    DecodeObjectHeader(s, at).Ok? && DecodeObjectHeader(s, at).value.next <= b
  }

  /** `entries` are the catalog entries of the objects whose headers start at
      `starts`, in file order: each header ends before the next object starts. */
  ghost predicate Catalogues(s: seq<byte>, starts: seq<nat>, entries: seq<Object>)
  {
    |starts| == |entries| &&
    (forall k :: 0 <= k < |starts| ==> Describes(s, starts[k], entries[k])) &&
    (forall k :: 0 < k < |starts| ==> HeaderBefore(s, starts[k - 1], starts[k]))
  }

  /** Appending the entry of an object that starts after the last catalogued
      header keeps a catalogue. */
  lemma CataloguesAppend(s: seq<byte>, starts: seq<nat>, entries: seq<Object>, at: nat, o: Object)
    requires Catalogues(s, starts, entries)
    requires Describes(s, at, o)
    requires starts != [] ==> HeaderBefore(s, Last(starts), at)
    ensures Catalogues(s, starts + [at], entries + [o])
  {
    var starts', entries' := starts + [at], entries + [o];
    forall k | 0 <= k < |starts'|
      ensures Describes(s, starts'[k], entries'[k])
    {
      if k < |starts| {
        assert starts'[k] == starts[k] && entries'[k] == entries[k];
      }
    }
    forall k | 0 < k < |starts'|
      ensures HeaderBefore(s, starts'[k - 1], starts'[k])
    {
      if k < |starts| {
        assert starts'[k - 1] == starts[k - 1] && starts'[k] == starts[k];
      }
    }
  }

  /** The windows of `trace` are spans of `s`: each call is given a non-empty
      span starting right after the bytes its stream has consumed, counted from
      the start `p` of the object's compressed data. */
  ghost predicate ReadsFrom(s: seq<byte>, p: nat, trace: seq<Call>)
    decreases |trace|
  {
    trace != [] ==>
      var c := Last(trace);
      var at := p + |c.stream.consumed|;
      ReadsFrom(s, p, trace[..|trace| - 1]) && at + |c.window| <= |s| && c.window == s[at..at + |c.window|]
  }

  /** `trace` is a run of unpackEntryData's loop on the data starting at `p`. */
  ghost predicate Drives(inflate: Inflater, s: seq<byte>, p: nat, size: nat, trace: seq<Call>)
  {
    Chained(inflate, size, trace) && ReadsFrom(s, p, trace)
  }

  /** The run decompressed the object: its last call reported Z_STREAM_END with
      TotalOut equal to the declared size. */
  predicate Completes(size: nat, trace: seq<Call>)
  {
    trace != [] && Last(trace).step.Step? &&
    Last(trace).step.status == ZStreamEnd && Last(trace).step.totalOut == size
  }

  /** What unpackEntryData returns once its loop has made the run `trace`:
      the loop stops on the inflater's error, on a status other than Z_OK
      (success only with Z_STREAM_END and TotalOut equal to the declared
      size), or for want of input while the stream still reports Z_OK. */
  function RunResult(size: nat, trace: seq<Call>): (r: Result<Stream>)
    requires trace != [] ==> Fits(Last(trace))
    ensures r.Ok? <==> Completes(size, trace)
    ensures r.Ok? ==> r.value == After(trace)
    ensures r == Err(Truncated) <==> trace == [] || (Last(trace).step.Step? && Last(trace).step.status == ZOk)
    ensures r.Err? && r.error.InflateFailed? <==> trace != [] && Last(trace).step.Failed?
  {
    if trace == [] then Err(Truncated)
    else
      var step := Last(trace).step;
      if step.Failed? then Err(InflateFailed(step.code))
      else if step.status == ZOk then Err(Truncated)
      else if Completes(size, trace) then Ok(After(trace))
      else Err(InflateReturned(step.status))
  }

  /** A run extended by one more call, on a non-empty span right after what
      its stream has consumed, is still a run; a successful call leaves the
      stream advanced by the bytes it took, its output within the object's
      size, and Z_OK only with progress made. */
  lemma DrivesAppend(inflate: Inflater, s: seq<byte>, p: nat, size: nat, trace: seq<Call>, w: seq<byte>, step: Step)
    requires Conforming(inflate) && Drives(inflate, s, p, size, trace)
    requires trace != [] ==> Last(trace).step.Step? && Last(trace).step.status == ZOk
    requires After(trace).totalOut <= size
    requires |w| > 0 && step == inflate(After(trace), w, size)
    requires var c := |After(trace).consumed|;
      p + c + |w| <= |s| && w == s[p + c..p + c + |w|]
    ensures var z, trace' := After(trace), trace + [Call(After(trace), w, step)];
      Drives(inflate, s, p, size, trace') && Last(trace').step == step &&
      (step.Step? ==>
        step.availIn <= |w| &&
        After(trace') == Advance(z, w, step) && After(trace').totalOut <= size &&
        (step.status == ZOk ==> step.availIn < |w| || z.totalOut < After(trace').totalOut))
  {
    var c := Call(After(trace), w, step);
    assert StepConforms(After(trace), w, size, step);
    ChainedAppend(inflate, size, trace, c);
    SnocFront(trace, c);
  }

  /** The bytes a run consumed are the file's bytes from `p` on. */
  lemma {:induction false} DrivenConsumesSource(inflate: Inflater, s: seq<byte>, p: nat, size: nat, trace: seq<Call>)
    requires Drives(inflate, s, p, size, trace) && p <= |s|
    ensures var c := After(trace).consumed;
      p + |c| <= |s| && c == s[p..p + |c|]
    decreases |trace|
  {
    if trace != [] {
      var l := Last(trace);
      var front := trace[..|trace| - 1];
      DrivenConsumesSource(inflate, s, p, size, front);
      var c0 := |l.stream.consumed|;
      assert l.stream.consumed == s[p..p + c0];
      if l.step.Step? {
        var t := |l.window| - l.step.availIn;
        assert l.window[..t] == s[p + c0..p + c0 + t];
        assert s[p..p + c0] + s[p + c0..p + c0 + t] == s[p..p + c0 + t];
      }
    }
  }

  /** What a run consumed is what it was charged for, and it is the file's
      bytes from `p` on. */
  lemma RunAccounts(inflate: Inflater, s: seq<byte>, p: nat, size: nat, trace: seq<Call>)
    requires Drives(inflate, s, p, size, trace) && p <= |s|
    ensures var c := After(trace).consumed;
      |c| == Used(inflate, size, trace) && p + |c| <= |s| && c == s[p..p + |c|]
  {
    UsedIsConsumed(inflate, size, trace);
    DrivenConsumesSource(inflate, s, p, size, trace);
  }

  /** The index where the object whose header starts at `at` has its data. */
  ghost function HeaderEnd(s: seq<byte>, at: nat): nat
    requires DecodeObjectHeader(s, at).Ok?
  {
    DecodeObjectHeader(s, at).value.next
  }

  /** The index right after the object's compressed data, as `run` consumed it. */
  ghost function DataEnd(s: seq<byte>, at: nat, run: seq<Call>): nat
    requires DecodeObjectHeader(s, at).Ok? && (run != [] ==> Fits(Last(run)))
  {
    HeaderEnd(s, at) + |After(run).consumed|
  }

  /** Where the next object's header is read, after the objects whose headers
      start at `starts` and whose data `runs` consumed, reading from `p0`. */
  ghost function WalkEnd(s: seq<byte>, p0: nat, starts: seq<nat>, runs: seq<seq<Call>>): nat
    requires |runs| == |starts|
    requires starts != [] ==> DecodeObjectHeader(s, Last(starts)).Ok? && (Last(runs) != [] ==> Fits(Last(Last(runs))))
  {
    if starts == [] then p0 else DataEnd(s, Last(starts), Last(runs))
  }

  /** The last object read, if any, was fully decompressed. */
  ghost predicate LastCompletes(entries: seq<Object>, runs: seq<seq<Call>>)
  {
    |runs| == |entries| && (runs != [] ==> Completes(Last(entries).size, Last(runs)))
  }

  /** The objects read so far, from `p0` on, in file order: each one's header
      starts where the previous object's data ended (the first at `p0`), after
      the previous object was fully decompressed; its entry records that
      header; and `runs` holds the Inflate run on its data. */
  ghost predicate Walks(inflate: Inflater, s: seq<byte>, p0: nat, starts: seq<nat>, entries: seq<Object>, runs: seq<seq<Call>>)
    decreases |starts|
  {
    |entries| == |starts| && |runs| == |starts| &&
    (starts != [] ==>
      var n := |starts| - 1;
      Walks(inflate, s, p0, starts[..n], entries[..n], runs[..n]) &&
      LastCompletes(entries[..n], runs[..n]) &&
      starts[n] == WalkEnd(s, p0, starts[..n], runs[..n]) &&
      Describes(s, starts[n], entries[n]) &&
      Drives(inflate, s, HeaderEnd(s, starts[n]), entries[n].size, runs[n]))
  }

  /** Reading one more object where the walk ends, after a fully decompressed
      last object, extends the walk. */
  lemma WalksAppend(inflate: Inflater, s: seq<byte>, p0: nat, starts: seq<nat>, entries: seq<Object>,
                    runs: seq<seq<Call>>, at: nat, o: Object, run: seq<Call>)
    requires Walks(inflate, s, p0, starts, entries, runs)
    requires LastCompletes(entries, runs)
    requires at == WalkEnd(s, p0, starts, runs)
    requires Describes(s, at, o)
    requires Drives(inflate, s, HeaderEnd(s, at), o.size, run)
    ensures Walks(inflate, s, p0, starts + [at], entries + [o], runs + [run])
    ensures Last(starts + [at]) == at && Last(entries + [o]) == o && Last(runs + [run]) == run
    ensures WalkEnd(s, p0, starts + [at], runs + [run]) == DataEnd(s, at, run)
    ensures LastCompletes(entries + [o], runs + [run]) <==> Completes(o.size, run)
  {
    SnocFront(starts, at);
    SnocFront(entries, o);
    SnocFront(runs, run);
  }

  /** A walk is a catalogue: every entry records the header at its start, and
      each header ends before the next object starts. */
  lemma {:induction false} WalksCatalogue(inflate: Inflater, s: seq<byte>, p0: nat, starts: seq<nat>,
                                          entries: seq<Object>, runs: seq<seq<Call>>)
    requires Walks(inflate, s, p0, starts, entries, runs)
    ensures Catalogues(s, starts, entries)
    ensures starts != [] ==> starts[0] == p0
    decreases |starts|
  {
    if starts != [] {
      var n := |starts| - 1;
      WalksCatalogue(inflate, s, p0, starts[..n], entries[..n], runs[..n]);
      CataloguesAppend(s, starts[..n], entries[..n], starts[n], entries[n]);
      SnocLast(starts);
      SnocLast(entries);
    }
  }

  /** What reading one record at `at` did: either its header does not decode,
      nothing is catalogued and the error is the header's; or its entry is
      catalogued, `run` is the Inflate run on its data, the record passes
      exactly when the run completed, the cursor `end` is where the run's
      data ended (the end of the file when the run ran out of input), and a
      failure is the run's. */
  ghost predicate RecordRead(inflate: Inflater, s: seq<byte>, at: nat, end: nat, r: Outcome, added: seq<Object>, run: seq<Call>)
  {
    |added| <= 1 &&
    (added == [] ==> DecodeObjectHeader(s, at).Err? && r == Fail(DecodeObjectHeader(s, at).error)) &&
    (added != [] ==>
      Describes(s, at, added[0]) &&
      Drives(inflate, s, HeaderEnd(s, at), added[0].size, run) &&
      (r.Pass? <==> Completes(added[0].size, run)) &&
      end == DataEnd(s, at, run) && (r == Fail(Truncated) ==> end == |s|) &&
      (r.Fail? ==> RunResult(added[0].size, run) == Err(r.error)))
  }

  /** A record whose entry was catalogued, read where the walk ends, extends
      the walk by one object; a pass leaves the cursor where the new walk
      ends, and a failure is the new last run's, with the cursor where that
      run stopped. */
  lemma WalkExtend(inflate: Inflater, s: seq<byte>, p0: nat, starts: seq<nat>, entries: seq<Object>, runs: seq<seq<Call>>,
                   end: nat, r: Outcome, added: seq<Object>, run: seq<Call>)
    requires Walks(inflate, s, p0, starts, entries, runs) && LastCompletes(entries, runs)
    requires RecordRead(inflate, s, WalkEnd(s, p0, starts, runs), end, r, added, run) && added != []
    ensures var starts', runs' := starts + [WalkEnd(s, p0, starts, runs)], runs + [run];
      Walks(inflate, s, p0, starts', entries + added, runs') &&
      (r.Pass? ==> LastCompletes(entries + added, runs') && end == WalkEnd(s, p0, starts', runs')) &&
      (r.Fail? ==>
        RunResult(Last(entries + added).size, Last(runs')) == Err(r.error) &&
        end == DataEnd(s, Last(starts'), Last(runs')) && (r.error == Truncated ==> end == |s|))
  {
    var at := WalkEnd(s, p0, starts, runs);
    assert added == [added[0]];
    WalksAppend(inflate, s, p0, starts, entries, runs, at, added[0], run);
  }

  /** The walk stopped at a header starting at `failAt`, where the walk ended,
      after a fully decompressed last object: the header does not decode, and
      its error is `e`. */
  ghost predicate HeaderFailed(s: seq<byte>, p0: nat, starts: seq<nat>, entries: seq<Object>, runs: seq<seq<Call>>,
                               failAt: nat, e: Error)
  {
    |starts| == |runs| && LastCompletes(entries, runs) &&
    (starts != [] ==> DecodeObjectHeader(s, Last(starts)).Ok? && (Last(runs) != [] ==> Fits(Last(Last(runs))))) &&
    failAt == WalkEnd(s, p0, starts, runs) && DecodeObjectHeader(s, failAt) == Err(e)
  }

  /** The walk stopped in the data of its last object, whose header starts at
      `failAt`: the run on that data ended in the error `e`, the cursor `end`
      is where the run stopped, and Truncated means the file ran out. */
  ghost predicate DataFailed(s: seq<byte>, starts: seq<nat>, entries: seq<Object>, runs: seq<seq<Call>>,
                             failAt: nat, end: nat, e: Error)
  {
    entries != [] && |starts| == |entries| && |runs| == |entries| && failAt == Last(starts) &&
    (Last(runs) != [] ==> Fits(Last(Last(runs)))) && DecodeObjectHeader(s, failAt).Ok? &&
    RunResult(Last(entries).size, Last(runs)) == Err(e) &&
    end == DataEnd(s, failAt, Last(runs)) && (e == Truncated ==> end == |s|)
  }

  /** One more record read where the walk ends: the walk grows by the
      record's entry, if any; a pass leaves a walk whose last object completed,
      with the cursor where it ends; a failure is the header's or the new last
      object's data's. */
  lemma NextRecord(inflate: Inflater, s: seq<byte>, p0: nat, starts: seq<nat>, entries: seq<Object>, runs: seq<seq<Call>>,
                   end: nat, r: Outcome, added: seq<Object>, run: seq<Call>)
    returns (starts': seq<nat>, entries': seq<Object>, runs': seq<seq<Call>>)
    requires Walks(inflate, s, p0, starts, entries, runs) && LastCompletes(entries, runs)
    requires RecordRead(inflate, s, WalkEnd(s, p0, starts, runs), end, r, added, run)
    ensures entries' == entries + added
    ensures Walks(inflate, s, p0, starts', entries', runs')
    ensures r.Pass? ==> added != [] && LastCompletes(entries', runs') && end == WalkEnd(s, p0, starts', runs')
    ensures r.Fail? ==>
      (added == [] && HeaderFailed(s, p0, starts', entries', runs', WalkEnd(s, p0, starts, runs), r.error)) ||
      DataFailed(s, starts', entries', runs', WalkEnd(s, p0, starts, runs), end, r.error)
  {
    var at := WalkEnd(s, p0, starts, runs);
    if added == [] {
      assert entries + added == entries;
      starts', entries', runs' := starts, entries, runs;
    } else {
      WalkExtend(inflate, s, p0, starts, entries, runs, end, r, added, run);
      starts', entries', runs' := starts + [at], entries + added, runs + [run];
      SnocFront(starts, at);
    }
  }

  /** Appending `x` to `a` leaves `a` as the front and `x` as the last element. */
  lemma SnocFront<T>(a: seq<T>, x: T)
    ensures (a + [x])[..|a|] == a && Last(a + [x]) == x
  {
  }

  /** A non-empty sequence is its front with its last element appended. */
  lemma SnocLast<T>(a: seq<T>)
    requires a != []
    ensures a[..|a| - 1] + [Last(a)] == a
  {
  }

  lemma AppendAssoc<T>(a: seq<T>, b: seq<T>, c: seq<T>)
    ensures (a + b) + c == a + (b + c)
  {
  }
}
