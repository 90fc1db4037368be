/** ratchet.go, the ratchet rule: what a ref's logged records may be. */
module Chains {
  import opened Wrappers
  import opened Entries
  import opened GitUtil

  datatype ChainError = TagMoved | CannotCheckAncestry | Rewritten

  /** Records with runs of one object collapsed to their first record. */
  function Collapsed(records: seq<RefRecord>): seq<RefRecord> {
    var n := |records|;
    if n < 2 then records
    else if records[n - 2].obj == records[n - 1].obj then Collapsed(records[..n - 1])
    else Collapsed(records[..n - 1]) + [records[n - 1]]
  }

  /** Collapses runs of records naming the same object. */
  method DropRepeats(records: seq<RefRecord>) returns (out: seq<RefRecord>)
    ensures out == Collapsed(records)
  {
    out := [];
    for i := 0 to |records|
      invariant out == Collapsed(records[..i])
    {
      assert records[..i + 1][..i] == records[..i];
      if i > 0 && records[i - 1].obj == records[i].obj {
        continue;
      }
      out := out + [records[i]];
    }
    assert records[..|records|] == records;
  }

  /** The first place from `i` on where a branch does not move forward. */
  function FirstBreak(clone: Clone, records: seq<RefRecord>, i: nat): Option<ChainError>
    requires i > 0
    decreases |records| - i
  {
    if i >= |records| then None
    else match IsAncestor(clone, records[i - 1].obj, records[i].obj)
      case Err(_) => Some(CannotCheckAncestry)
      case Ok(false) => Some(Rewritten)
      case Ok(true) => FirstBreak(clone, records, i + 1)
  }

  /** The verdict of `CheckRefChain`; none when the records keep the rule. */
  function ChainVerdict(clone: Clone, kind: RefKind, records: seq<RefRecord>): Option<ChainError> {
    var entries := Collapsed(records);
    match kind
    case Tag => if |entries| > 1 then Some(TagMoved) else None
    case Branch => FirstBreak(clone, entries, 1)
  }

  /** Applies the ratchet rule to a ref's records. */
  method CheckRefChain(clone: Clone, kind: RefKind, records: seq<RefRecord>) returns (r: Option<ChainError>)
    ensures r == ChainVerdict(clone, kind, records)
  {
    var entries := DropRepeats(records);
    match kind {
      case Tag =>
        if |entries| > 1 {
          return Some(TagMoved);
        }
      case Branch =>
        var i := 1;
        while i < |entries|
          invariant i >= 1
          invariant FirstBreak(clone, entries, 1) == FirstBreak(clone, entries, i)
          decreases |entries| - i
        {
          var ok := IsAncestor(clone, entries[i - 1].obj, entries[i].obj);
          if ok.Err? {
            return Some(CannotCheckAncestry);
          }
          if !ok.value {
            return Some(Rewritten);
          }
          i := i + 1;
        }
    }
    return None;
  }

  // ---------- The adjacent walk is the global rule ----------

  /** All records name one object. */
  ghost predicate Uniform(records: seq<RefRecord>) {
    forall i, j :: 0 <= i < j < |records| ==> records[i].obj == records[j].obj
  }

  /** Every earlier object is an ancestor of, or equal to, every later one. */
  ghost predicate MovesForward(anc: Ancestry, records: seq<RefRecord>) {
    forall i, j :: 0 <= i < j < |records| ==> anc(records[i].obj, records[j].obj)
  }

  ghost predicate AllPresent(clone: Clone, records: seq<RefRecord>) {
    forall r :: r in records ==> r.obj in clone.objects
  }

  /** The records break the rule, whatever objects a clone holds. */
  ghost predicate Breaks(anc: Ancestry, kind: RefKind, records: seq<RefRecord>) {
    match kind
    case Tag => !Uniform(records)
    case Branch => !MovesForward(anc, records)
  }

  /** Collapsing keeps the first record and the last object. */
  lemma {:induction false} CollapsedEnds(records: seq<RefRecord>)
    requires records != []
    ensures var c := Collapsed(records);
            |c| > 0 && c[0] == records[0] && c[|c| - 1].obj == records[|records| - 1].obj
  {
    if |records| > 1 { CollapsedEnds(records[..|records| - 1]); }
  }

  lemma {:induction false} CollapsedUniform(records: seq<RefRecord>)
    ensures |Collapsed(records)| <= 1 <==> Uniform(records)
  {
    var n := |records|;
    if n > 1 {
      var init := records[..n - 1];
      CollapsedUniform(init);
      CollapsedEnds(init);
      if Uniform(records) { assert Uniform(init); }
      if Uniform(init) && records[n - 2].obj == records[n - 1].obj {
        forall i, j | 0 <= i < j < n
          ensures records[i].obj == records[j].obj
        {
          if j == n - 1 && i < n - 2 { assert init[i].obj == init[n - 2].obj; }
        }
      }
    }
  }

  /** Every record's object is in the collapsed records, in the same order. */
  lemma {:induction false} CollapsedForward(anc: Ancestry, records: seq<RefRecord>)
    requires IsAncestry(anc)
    ensures MovesForward(anc, Collapsed(records)) <==> MovesForward(anc, records)
  {
    var n := |records|;
    if n > 1 {
      var init, last := records[..n - 1], records[n - 1];
      CollapsedForward(anc, init);
      CollapsedEnds(init);
      assert records == init + [last];
      if records[n - 2].obj == last.obj {
        ForwardSnoc(anc, init, last);
      } else {
        ForwardAlike(anc, Collapsed(init), init, last);
      }
    }
  }

  /** Two lists that move forward alike and end at one object do so with one more record. */
  lemma ForwardAlike(anc: Ancestry, a: seq<RefRecord>, b: seq<RefRecord>, last: RefRecord)
    requires IsAncestry(anc) && a != [] && b != [] && a[|a| - 1].obj == b[|b| - 1].obj
    requires MovesForward(anc, a) <==> MovesForward(anc, b)
    ensures MovesForward(anc, a + [last]) <==> MovesForward(anc, b + [last])
  {
    ForwardSnoc(anc, a, last);
    ForwardSnoc(anc, b, last);
  }

  /** One more record moves forward if it is a descendant of the last one before it. */
  lemma ForwardSnoc(anc: Ancestry, records: seq<RefRecord>, last: RefRecord)
    requires IsAncestry(anc) && records != []
    ensures MovesForward(anc, records + [last])
       <==> MovesForward(anc, records) && anc(records[|records| - 1].obj, last.obj)
  {
    var n, all := |records|, records + [last];
    if MovesForward(anc, all) {
      assert all[n - 1] == records[n - 1] && all[n] == last;
      assert anc(all[n - 1].obj, all[n].obj);
      forall i, j | 0 <= i < j < n
        ensures anc(records[i].obj, records[j].obj)
      {
        assert all[i] == records[i] && all[j] == records[j];
      }
    }
    if MovesForward(anc, records) && anc(records[n - 1].obj, last.obj) {
      forall i, j | 0 <= i < j <= n
        ensures anc(all[i].obj, all[j].obj)
      {
        if j == n && i < n - 1 { assert anc(records[i].obj, records[n - 1].obj); }
      }
    }
  }

  lemma {:induction false} CollapsedPresent(clone: Clone, records: seq<RefRecord>)
    ensures AllPresent(clone, Collapsed(records)) <==> AllPresent(clone, records)
  {
    var n := |records|;
    if n > 1 {
      CollapsedPresent(clone, records[..n - 1]);
      assert records == records[..n - 1] + [records[n - 1]];
      assert records[n - 2] in records[..n - 1];
    }
  }

  /** The walk over adjacent records. */
  lemma {:induction false} FirstBreakGlobal(clone: Clone, records: seq<RefRecord>, i: nat)
    requires IsAncestry(clone.anc) && 0 < i <= |records|
    requires MovesForward(clone.anc, records[..i])
    requires i > 1 ==> AllPresent(clone, records[..i])
    ensures |records| > 1 ==>
              (FirstBreak(clone, records, i).None? <==> MovesForward(clone.anc, records) && AllPresent(clone, records))
    decreases |records| - i
  {
    if i == |records| {
      assert records[..i] == records;
    } else {
      FirstBreakStep(clone, records, i);
      if IsAncestor(clone, records[i - 1].obj, records[i].obj) == Ok(true) { FirstBreakGlobal(clone, records, i + 1); }
    }
  }

  /** One step of the walk: the next record is present and moves forward, or the whole list does not. */
  lemma FirstBreakStep(clone: Clone, records: seq<RefRecord>, i: nat)
    requires IsAncestry(clone.anc) && 0 < i < |records|
    requires MovesForward(clone.anc, records[..i]) && (i > 1 ==> AllPresent(clone, records[..i]))
    ensures IsAncestor(clone, records[i - 1].obj, records[i].obj) == Ok(true) ==>
              MovesForward(clone.anc, records[..i + 1]) && AllPresent(clone, records[..i + 1])
    ensures IsAncestor(clone, records[i - 1].obj, records[i].obj) != Ok(true) ==>
              !(MovesForward(clone.anc, records) && AllPresent(clone, records))
  {
    var before := records[..i];
    assert records[..i + 1] == before + [records[i]];
    assert before[i - 1] == records[i - 1];
    ForwardSnoc(clone.anc, before, records[i]);
    if MovesForward(clone.anc, records) && AllPresent(clone, records) {
      assert clone.anc(records[i - 1].obj, records[i].obj);
      assert records[i - 1] in records && records[i] in records;
    }
  }

  /**
    The rule, exactly: a tag's records are accepted if and only if they name one
    object; a branch's if and only if they name one object, or every object is in
    the clone and each earlier one is an ancestor of each later one.
   */
  lemma VerdictIsGlobal(clone: Clone, kind: RefKind, records: seq<RefRecord>)
    requires IsAncestry(clone.anc)
    ensures ChainVerdict(clone, kind, records).None? <==>
              || Uniform(records)
              || (kind == Branch && MovesForward(clone.anc, records) && AllPresent(clone, records))
  {
    var c := Collapsed(records);
    CollapsedUniform(records);
    if kind == Branch && |c| > 1 {
      CollapsedForward(clone.anc, records);
      CollapsedPresent(clone, records);
      FirstBreakGlobal(clone, c, 1);
    }
  }

  /** A branch recorded at one object is accepted by a clone that lacks the object; at two, it is not. */
  lemma OneObjectMissing(clone: Clone, first: RefRecord, second: RefRecord)
    requires first.obj !in clone.objects && first.obj != second.obj
    ensures ChainVerdict(clone, Branch, [first]).None? && ChainVerdict(clone, Branch, [first, first]).None?
    ensures ChainVerdict(clone, Branch, [first, second]) == Some(CannotCheckAncestry)
  {
    assert [first, first][..1] == [first] && [first, second][..1] == [first];
  }

  /** Records that break the rule are rejected in every clone. */
  lemma BreaksRejected(clone: Clone, kind: RefKind, records: seq<RefRecord>)
    requires IsAncestry(clone.anc) && Breaks(clone.anc, kind, records)
    ensures ChainVerdict(clone, kind, records).Some?
  {
    VerdictIsGlobal(clone, kind, records);
  }

  // ---------- Rejection is permanent ----------

  lemma CollapsedSnoc(records: seq<RefRecord>, last: RefRecord)
    ensures Collapsed(records) <= Collapsed(records + [last])
  {
    assert (records + [last])[..|records|] == records;
  }

  /** Collapsing more records extends the collapsed records. */
  lemma {:induction false} CollapsedExtends(records: seq<RefRecord>, more: seq<RefRecord>)
    ensures Collapsed(records) <= Collapsed(records + more)
    decreases |more|
  {
    if more == [] {
      assert records + more == records;
    } else {
      var init, last := records + more[..|more| - 1], more[|more| - 1];
      CollapsedExtends(records, more[..|more| - 1]);
      CollapsedSnoc(init, last);
      assert records + more == init + [last];
    }
  }

  lemma {:induction false} FirstBreakExtends(clone: Clone, a: seq<RefRecord>, b: seq<RefRecord>, i: nat)
    requires i > 0 && a <= b && FirstBreak(clone, a, i).Some?
    ensures FirstBreak(clone, b, i) == FirstBreak(clone, a, i)
    decreases |a| - i
  {
    if IsAncestor(clone, a[i - 1].obj, a[i].obj) == Ok(true) { FirstBreakExtends(clone, a, b, i + 1); }
  }

  /** A rejected list stays rejected, for the same reason, however it is extended. */
  lemma RejectionIsPermanent(clone: Clone, kind: RefKind, records: seq<RefRecord>, more: seq<RefRecord>)
    requires ChainVerdict(clone, kind, records).Some?
    ensures ChainVerdict(clone, kind, records + more) == ChainVerdict(clone, kind, records)
  {
    CollapsedExtends(records, more);
    if kind == Branch {
      FirstBreakExtends(clone, Collapsed(records), Collapsed(records + more), 1);
    }
  }

  /** Records that break the rule break it under every extension. */
  lemma BreaksExtends(anc: Ancestry, kind: RefKind, records: seq<RefRecord>, longer: seq<RefRecord>)
    requires Breaks(anc, kind, records) && records <= longer
    ensures Breaks(anc, kind, longer)
  {
    match kind
    case Tag =>
      var i, j :| 0 <= i < j < |records| && records[i].obj != records[j].obj;
      assert longer[i].obj != longer[j].obj;
    case Branch =>
      var i, j :| 0 <= i < j < |records| && !anc(records[i].obj, records[j].obj);
      assert !anc(longer[i].obj, longer[j].obj);
  }
}
