/**
 The crash-safe journal of the mutation runner (scripts/check_pin_credential_mutations.py).

 A run backs a file up, journals what it is about to do, mutates, restores, clears the journal;
 the next run recovers what it finds. Disk effects land in program order, and a crash can come
 after any of them or in the middle of a write. Whatever happens, the next `journal_recover`
 either restores the tree or refuses on a tree that is unmodified already.
 */
module Journal {
  import opened Bytes
  import opened Manifest

  type Path = string

  type Disk = map<Path, Bytes>

  datatype Entry = Entry(id: string, file: Path, sha256: string)

  /** JSON and the digest, as the runner uses them. */
  datatype Codec = Codec(dump: Entry -> Bytes, parse: Bytes -> Option<Entry>, digest: Bytes -> string)

  /**
   What is needed of them: a journal reads back, a torn one does not parse, and a digest is never
   the empty string the runner puts in for a journal it cannot read.
   */
  ghost predicate Sound(c: Codec) {
    && (forall e: Entry :: c.parse(c.dump(e)) == Some(e))
    && (forall e: Entry, k: nat :: k < |c.dump(e)| ==> c.parse(c.dump(e)[..k]) == None)
    && (forall b: Bytes :: c.digest(b) != "")
  }

  const JOURNAL: Path := "target/pin-credential-mutations/in-progress.json"
  const BACKUP: Path := "target/pin-credential-mutations/original.bin"

  predicate IsSource(p: Path) { p != JOURNAL && p != BACKUP }

  // ---------------------------------------------------------------- disk effects and crashes

  datatype Effect = Put(path: Path, data: Bytes) | Unlink(path: Path)

  function Apply(d: Disk, e: Effect): Disk {
    match e
    case Put(p, data) => d[p := data]
    case Unlink(p) => d - {p}
  }

  function ApplyAll(d: Disk, es: seq<Effect>): Disk
    decreases es
  {
    if es == [] then d else ApplyAll(Apply(d, es[0]), es[1..])
  }

  /** What a crash leaves of a write: some first part of it. */
  ghost predicate TornFrom(torn: Effect, e: Effect) {
    torn.Put? && e.Put? && torn.path == e.path && torn.data <= e.data
  }

  /** The effects that landed: all of some first ones, and perhaps a torn piece of the next. */
  ghost predicate Landed(landed: seq<Effect>, plan: seq<Effect>) {
    || landed == []
    || (plan != [] && landed[0] == plan[0] && Landed(landed[1..], plan[1..]))
    || (plan != [] && |landed| == 1 && TornFrom(landed[0], plan[0]))
  }

  // ---------------------------------------------------------------- the runner's plans

  function BeginPlan(c: Codec, target: Path, original: Bytes, id: string): seq<Effect> {
    [Put(BACKUP, original), Put(JOURNAL, c.dump(Entry(id, target, c.digest(original))))]
  }

  function EndPlan(): seq<Effect> {
    [Unlink(JOURNAL), Unlink(BACKUP)]
  }

  /** The `try` block: journal, then mutate. */
  function TryPlan(c: Codec, target: Path, original: Bytes, mutated: Bytes, id: string): seq<Effect> {
    BeginPlan(c, target, original, id) + [Put(target, mutated)]
  }

  /** The `finally` block: restore, then clear. */
  function FinallyPlan(target: Path, original: Bytes): seq<Effect> {
    [Put(target, original)] + EndPlan()
  }

  /**
   A run of one mutation: what the `try` block got done (all of it, or less if something raised
   there), then the `finally` block.
   */
  function RunPlan(tried: seq<Effect>, target: Path, original: Bytes): seq<Effect> {
    tried + FinallyPlan(target, original)
  }

  /** The `try` block got as far as a whole journal. */
  predicate JournalWritten(c: Codec, tried: seq<Effect>, target: Path, original: Bytes, id: string) {
    |tried| >= 2 && tried[..2] == BeginPlan(c, target, original, id)
  }

  datatype Verdict = NothingPending | Recovered | BackupMissing | BackupMismatch

  /** `journal_pending`. */
  function Pending(c: Codec, d: Disk): Option<Entry> {
    if JOURNAL !in d then None
    else match c.parse(d[JOURNAL])
      case Some(e) => Some(e)
      case None => Some(Entry("?", "?", ""))
  }

  /** `journal_recover`: its verdict and its disk effects. */
  function RecoverPlan(c: Codec, d: Disk): (Verdict, seq<Effect>) {
    match Pending(c, d)
    case None => (NothingPending, [])
    case Some(e) =>
      if BACKUP !in d then (BackupMissing, [])
      else if c.digest(d[BACKUP]) != e.sha256 then (BackupMismatch, [])
      else (Recovered, [Put(e.file, d[BACKUP])] + EndPlan())
  }

  // ---------------------------------------------------------------- the states a crash can leave

  /** `tree` is the source tree, and the disk holds it. */
  ghost predicate TreeIs(d: Disk, tree: Disk) {
    && (forall p :: p in tree ==> IsSource(p))
    && (forall p :: IsSource(p) ==> (p in d <==> p in tree))
    && (forall p :: p in tree ==> p in d && d[p] == tree[p])
  }

  ghost predicate TreeIsBut(d: Disk, tree: Disk, target: Path) {
    && (forall p :: p in tree ==> IsSource(p))
    && target in tree
    && (forall p :: IsSource(p) ==> (p in d <==> p in tree))
    && (forall p :: p in tree && p != target ==> p in d && d[p] == tree[p])
  }

  /** Nothing pending, nothing modified. */
  ghost predicate Clean(d: Disk, tree: Disk) {
    TreeIs(d, tree) && JOURNAL !in d
  }

  /** A whole journal and the backup it names: `target` may hold anything, nothing else is modified. */
  ghost predicate Journaled(c: Codec, d: Disk, tree: Disk, target: Path, id: string) {
    && TreeIsBut(d, tree, target)
    && BACKUP in d && d[BACKUP] == tree[target]
    && JOURNAL in d && d[JOURNAL] == c.dump(Entry(id, target, c.digest(tree[target])))
  }

  /** A journal that was never finished: nothing is modified yet. */
  ghost predicate Unfinished(c: Codec, d: Disk, tree: Disk) {
    TreeIs(d, tree) && JOURNAL in d && c.parse(d[JOURNAL]) == None
  }

  ghost predicate Safe(c: Codec, d: Disk, tree: Disk) {
    || Clean(d, tree)
    || (exists target, id :: Journaled(c, d, tree, target, id))
    || Unfinished(c, d, tree)
  }

  // ---------------------------------------------------------------- recovery

  /**
   What the next run does with any state a crash can leave: it restores the whole tree and clears
   the journal, or there is nothing to do, or it refuses on an unmodified tree.
   */
  lemma {:induction false} RecoveryRestores(c: Codec, d: Disk, tree: Disk)
    requires Sound(c) && Safe(c, d, tree)
    ensures var (verdict, plan) := RecoverPlan(c, d);
            var after := ApplyAll(d, plan);
            && TreeIs(after, tree)
            && (verdict == NothingPending || verdict == Recovered ==> Clean(after, tree))
            && (verdict == NothingPending <==> JOURNAL !in d)
            && (verdict == BackupMissing || verdict == BackupMismatch ==> after == d)
            && (verdict == Recovered ==> RecoverPlan(c, after) == (NothingPending, []))
  {
    var (verdict, plan) := RecoverPlan(c, d);
    if verdict == Recovered {
      var target, id :| Journaled(c, d, tree, target, id);
      JournalIsRead(c, d, tree, target, id);
      UnfoldThree(d, plan[0], plan[1], plan[2]);
    }
  }

  /** A whole journal names the target and a backup that matches it. */
  lemma JournalIsRead(c: Codec, d: Disk, tree: Disk, target: Path, id: string)
    requires Sound(c) && Journaled(c, d, tree, target, id)
    ensures RecoverPlan(c, d) == (Recovered, [Put(target, tree[target])] + EndPlan())
  {
  }

  lemma UnfoldThree(d: Disk, a: Effect, b: Effect, e: Effect)
    ensures ApplyAll(d, [a, b, e]) == Apply(Apply(Apply(d, a), b), e)
  {
    assert [a, b, e][1..] == [b, e] && [b, e][1..] == [e];
    assert ApplyAll(Apply(Apply(d, a), b), [e]) == ApplyAll(Apply(Apply(Apply(d, a), b), e), [e][1..]);
  }

  /** A backup is written back exactly when the journal is whole and names its digest; else nothing is touched. */
  lemma RecoversExactly(c: Codec, d: Disk)
    requires Sound(c)
    ensures var (verdict, plan) := RecoverPlan(c, d);
            var pending := JOURNAL in d;
            var entry := if pending then c.parse(d[JOURNAL]) else None;
      && (verdict == Recovered <==> entry.Some? && BACKUP in d && c.digest(d[BACKUP]) == entry.value.sha256)
      && (verdict == Recovered ==> plan == [Put(entry.value.file, d[BACKUP]), Unlink(JOURNAL), Unlink(BACKUP)])
      && (verdict != Recovered ==> plan == [] && ApplyAll(d, plan) == d)
      && (verdict == NothingPending <==> !pending)
      && (verdict == BackupMissing <==> pending && BACKUP !in d)
  {
  }

  // ---------------------------------------------------------------- crashes

  /** Every crash point of `plan` from `d` on leaves a safe state. */
  ghost predicate SafeThroughout(c: Codec, d: Disk, tree: Disk, plan: seq<Effect>)
    decreases plan
  {
    && Safe(c, d, tree)
    && (plan != [] ==>
          && SafeThroughout(c, Apply(d, plan[0]), tree, plan[1..])
          && forall torn :: TornFrom(torn, plan[0]) ==> Safe(c, Apply(d, torn), tree))
  }

  lemma {:induction false} CrashIsSafe(c: Codec, d: Disk, tree: Disk, plan: seq<Effect>, landed: seq<Effect>)
    requires SafeThroughout(c, d, tree, plan) && Landed(landed, plan)
    ensures Safe(c, ApplyAll(d, landed), tree)
    decreases plan
  {
    if landed != [] {
      if landed[0] == plan[0] && Landed(landed[1..], plan[1..]) {
        CrashIsSafe(c, Apply(d, plan[0]), tree, plan[1..], landed[1..]);
      } else {
        assert landed[1..] == [];
      }
    }
  }

  lemma {:induction false} LandedNoLonger(landed: seq<Effect>, plan: seq<Effect>)
    requires Landed(landed, plan)
    ensures |landed| <= |plan|
    decreases plan
  {
    if landed != [] && plan != [] && landed[0] == plan[0] && Landed(landed[1..], plan[1..]) {
      LandedNoLonger(landed[1..], plan[1..]);
    }
  }

  /** A plan after a whole first part can be cut in its second part. */
  lemma {:induction false} LandedAfter(first: seq<Effect>, landed: seq<Effect>, then_: seq<Effect>)
    requires Landed(landed, then_)
    ensures Landed(first + landed, first + then_)
    decreases first
  {
    if first == [] {
      assert first + landed == landed && first + then_ == then_;
    } else {
      LandedAfter(first[1..], landed, then_);
      assert (first + landed)[1..] == first[1..] + landed && (first + then_)[1..] == first[1..] + then_;
    }
  }

  /** A plan cut in its first part is cut. */
  lemma {:induction false} LandedEarly(landed: seq<Effect>, first: seq<Effect>, then_: seq<Effect>)
    requires Landed(landed, first)
    ensures Landed(landed, first + then_)
    decreases first
  {
    if landed != [] {
      assert (first + then_)[1..] == first[1..] + then_;
      if landed[0] == first[0] && Landed(landed[1..], first[1..]) {
        LandedEarly(landed[1..], first[1..], then_);
      }
    }
  }

  lemma {:induction false} SafeInSequence(c: Codec, d: Disk, tree: Disk, first: seq<Effect>, then_: seq<Effect>)
    requires SafeThroughout(c, d, tree, first) && SafeThroughout(c, ApplyAll(d, first), tree, then_)
    ensures SafeThroughout(c, d, tree, first + then_)
    decreases first
  {
    if first == [] {
      assert first + then_ == then_;
    } else {
      SafeInSequence(c, Apply(d, first[0]), tree, first[1..], then_);
      assert first + then_ == [first[0]] + (first[1..] + then_);
      SafeInFront(c, d, tree, first[0], first[1..] + then_);
    }
  }

  /** One effect more in front of a plan. */
  lemma {:induction false} SafeInFront(c: Codec, d: Disk, tree: Disk, e: Effect, plan: seq<Effect>)
    requires Safe(c, d, tree) && SafeThroughout(c, Apply(d, e), tree, plan)
    requires forall torn :: TornFrom(torn, e) ==> Safe(c, Apply(d, torn), tree)
    ensures SafeThroughout(c, d, tree, [e] + plan)
  {
    assert ([e] + plan)[1..] == plan;
  }

  /** A plan cut short is as safe as the plan. */
  lemma {:induction false} SafeWhenCut(c: Codec, d: Disk, tree: Disk, plan: seq<Effect>, cut: seq<Effect>)
    requires SafeThroughout(c, d, tree, plan) && Landed(cut, plan)
    ensures SafeThroughout(c, d, tree, cut)
    decreases plan
  {
    if cut != [] {
      if cut[0] == plan[0] && Landed(cut[1..], plan[1..]) {
        SafeWhenCut(c, Apply(d, plan[0]), tree, plan[1..], cut[1..]);
      } else {
        assert cut[1..] == [];
        assert SafeThroughout(c, Apply(d, cut[0]), tree, []);
      }
    }
  }

  /** Clearing the journal of a restored target. */
  lemma EndIsSafe(c: Codec, d: Disk, tree: Disk, target: Path, id: string)
    requires Journaled(c, d, tree, target, id) && d[target] == tree[target]
    ensures SafeThroughout(c, d, tree, EndPlan())
    ensures Clean(ApplyAll(d, EndPlan()), tree)
  {
    var d1 := Apply(d, Unlink(JOURNAL));
    var d2 := Apply(d1, Unlink(BACKUP));
    assert Clean(d1, tree) && Clean(d2, tree);
    assert EndPlan()[1..] == [Unlink(BACKUP)] && [Unlink(BACKUP)][1..] == [];
    assert SafeThroughout(c, d2, tree, []);
    assert SafeThroughout(c, d1, tree, [Unlink(BACKUP)]);
    assert ApplyAll(d1, [Unlink(BACKUP)]) == d2;
  }

  /** Writing anything to a journaled target keeps it journaled; writing the original back and clearing is safe. */
  lemma FinallyIsSafe(c: Codec, d: Disk, tree: Disk, target: Path, id: string)
    requires Journaled(c, d, tree, target, id)
    ensures SafeThroughout(c, d, tree, FinallyPlan(target, tree[target]))
    ensures Clean(ApplyAll(d, FinallyPlan(target, tree[target])), tree)
  {
    var plan := FinallyPlan(target, tree[target]);
    var d1 := Apply(d, plan[0]);
    assert Journaled(c, d1, tree, target, id);
    EndIsSafe(c, d1, tree, target, id);
    assert plan[1..] == EndPlan();
    forall torn | TornFrom(torn, plan[0])
      ensures Safe(c, Apply(d, torn), tree)
    {
      assert Journaled(c, Apply(d, torn), tree, target, id);
    }
  }

  /** A recovery can be interrupted anywhere, and repeated. */
  lemma RecoveryIsSafe(c: Codec, d: Disk, tree: Disk)
    requires Sound(c) && Safe(c, d, tree)
    ensures SafeThroughout(c, d, tree, RecoverPlan(c, d).1)
  {
    var (verdict, plan) := RecoverPlan(c, d);
    if verdict == Recovered {
      var target, id :| Journaled(c, d, tree, target, id);
      FinallyIsSafe(c, d, tree, target, id);
      assert plan == FinallyPlan(target, tree[target]);
    }
  }

  lemma PutBackupKeepsClean(d: Disk, tree: Disk, data: Bytes)
    requires Clean(d, tree)
    ensures Clean(Apply(d, Put(BACKUP, data)), tree)
  {
  }

  /** The journal's own write: whole it is a journal, torn it is an unfinished one. */
  lemma PutJournalIsSafe(c: Codec, d: Disk, tree: Disk, target: Path, id: string, e: Effect)
    requires Sound(c) && Clean(d, tree) && target in tree && BACKUP in d && d[BACKUP] == tree[target]
    requires var whole := Put(JOURNAL, c.dump(Entry(id, target, c.digest(tree[target]))));
             e == whole || TornFrom(e, whole)
    ensures var whole := Put(JOURNAL, c.dump(Entry(id, target, c.digest(tree[target]))));
            if e == whole then Journaled(c, Apply(d, e), tree, target, id)
            else Unfinished(c, Apply(d, e), tree)
  {
    var text := c.dump(Entry(id, target, c.digest(tree[target])));
    if e.data != text {
      assert e.data == text[..|e.data|];
    }
  }

  /** The `try` block, and what it has reached when it ends early or not. */
  lemma TryIsSafe(c: Codec, d: Disk, tree: Disk, target: Path, mutated: Bytes, id: string)
    requires Sound(c) && Clean(d, tree) && target in tree
    ensures SafeThroughout(c, d, tree, TryPlan(c, target, tree[target], mutated, id))
  {
    var plan := TryPlan(c, target, tree[target], mutated, id);
    var d1 := Apply(d, plan[0]);
    var d2 := Apply(d1, plan[1]);
    var d3 := Apply(d2, plan[2]);
    PutBackupKeepsClean(d, tree, tree[target]);
    PutJournalIsSafe(c, d1, tree, target, id, plan[1]);
    assert Journaled(c, d3, tree, target, id);
    assert plan[1..] == plan[1..3] && plan[1..][1..] == [plan[2]] && [plan[2]][1..] == [];
    forall torn | TornFrom(torn, plan[0])
      ensures Safe(c, Apply(d, torn), tree)
    {
      PutBackupKeepsClean(d, tree, torn.data);
    }
    forall torn | TornFrom(torn, plan[1])
      ensures Safe(c, Apply(d1, torn), tree)
    {
      PutJournalIsSafe(c, d1, tree, target, id, torn);
    }
    forall torn | TornFrom(torn, plan[2])
      ensures Safe(c, Apply(d2, torn), tree)
    {
      assert Journaled(c, Apply(d2, torn), tree, target, id);
    }
    assert SafeThroughout(c, d3, tree, []);
    assert SafeThroughout(c, d2, tree, [plan[2]]);
    assert SafeThroughout(c, d1, tree, plan[1..]);
  }

  /** With a whole journal behind it, a run is safe at every crash point, and ends clean. */
  lemma RunIsSafe(c: Codec, d: Disk, tree: Disk, target: Path, mutated: Bytes, id: string, tried: seq<Effect>)
    requires Sound(c) && Clean(d, tree) && target in tree
    requires Landed(tried, TryPlan(c, target, tree[target], mutated, id))
    requires JournalWritten(c, tried, target, tree[target], id)
    ensures SafeThroughout(c, d, tree, RunPlan(tried, target, tree[target]))
    ensures Clean(ApplyAll(d, RunPlan(tried, target, tree[target])), tree)
  {
    TryIsSafe(c, d, tree, target, mutated, id);
    SafeWhenCut(c, d, tree, TryPlan(c, target, tree[target], mutated, id), tried);
    JournaledAfterTry(c, d, tree, target, mutated, id, tried);
    FinallyIsSafe(c, ApplyAll(d, tried), tree, target, id);
    SafeInSequence(c, d, tree, tried, FinallyPlan(target, tree[target]));
    ApplyInSequence(d, tried, FinallyPlan(target, tree[target]));
  }

  lemma JournaledAfterTry(c: Codec, d: Disk, tree: Disk, target: Path, mutated: Bytes, id: string, tried: seq<Effect>)
    requires Clean(d, tree) && target in tree
    requires Landed(tried, TryPlan(c, target, tree[target], mutated, id))
    requires JournalWritten(c, tried, target, tree[target], id)
    ensures Journaled(c, ApplyAll(d, tried), tree, target, id)
  {
    var begin := BeginPlan(c, target, tree[target], id);
    assert tried[0] == tried[..2][0] && tried[1] == tried[..2][1];
    var d2 := Apply(Apply(d, tried[0]), tried[1]);
    assert ApplyAll(d, tried) == ApplyAll(d2, tried[1..][1..]);
    assert Landed(tried[1..], TryPlan(c, target, tree[target], mutated, id)[1..]);
    assert Landed(tried[1..][1..], TryPlan(c, target, tree[target], mutated, id)[1..][1..]);
    var rest := tried[1..][1..];
    LandedNoLonger(tried, TryPlan(c, target, tree[target], mutated, id));
    if rest != [] {
      assert rest[1..] == [];
      assert ApplyAll(d2, rest) == Apply(d2, rest[0]);
    }
  }

  // ---------------------------------------------------------------- where the guarantee ends

  /** The next run gets the tree back. */
  ghost predicate Recoverable(c: Codec, d: Disk, tree: Disk) {
    TreeIs(ApplyAll(d, RecoverPlan(c, d).1), tree)
  }

  /** What the `try` block leaves when it raised before the journal was whole: nothing is modified. */
  lemma UnmodifiedAfterTry(c: Codec, d: Disk, tree: Disk, target: Path, mutated: Bytes, id: string, tried: seq<Effect>)
    requires Sound(c) && Clean(d, tree) && target in tree
    requires Landed(tried, TryPlan(c, target, tree[target], mutated, id))
    requires !JournalWritten(c, tried, target, tree[target], id)
    ensures var t := ApplyAll(d, tried); Clean(t, tree) || Unfinished(c, t, tree)
  {
    var plan := TryPlan(c, target, tree[target], mutated, id);
    if tried != [] {
      var d1 := Apply(d, tried[0]);
      PutBackupKeepsClean(d, tree, tried[0].data);
      if |tried| > 1 {
        var rest := tried[1..];
        assert Landed(rest, plan[1..]);
        assert tried[..2] == [tried[0], rest[0]];
        assert rest[1..] == [];
        PutJournalIsSafe(c, d1, tree, target, id, rest[0]);
        assert ApplyAll(d1, rest) == Apply(d1, rest[0]);
      } else {
        assert tried[1..] == [];
      }
    }
  }

  /** Clearing an unfinished journal, or none, is safe. */
  lemma EndIsSafeUnmodified(c: Codec, d: Disk, tree: Disk)
    requires Clean(d, tree) || Unfinished(c, d, tree)
    ensures SafeThroughout(c, d, tree, EndPlan())
  {
    var d1 := Apply(d, Unlink(JOURNAL));
    var d2 := Apply(d1, Unlink(BACKUP));
    assert Clean(d1, tree) && Clean(d2, tree);
    assert EndPlan()[1..] == [Unlink(BACKUP)] && [Unlink(BACKUP)][1..] == [];
    assert SafeThroughout(c, d2, tree, []);
  }

  /** The crash came in the restoring write, and before it was whole. */
  predicate TornInRestore(tried: seq<Effect>, landed: seq<Effect>, target: Path, original: Bytes) {
    |landed| == |tried| + 1 && landed[|tried|] != Put(target, original)
  }

  /** A restore that is not torn writes back what is there already. */
  lemma WholeRestoreIsSafe(c: Codec, d: Disk, tree: Disk, target: Path, landed: seq<Effect>)
    requires Clean(d, tree) || Unfinished(c, d, tree)
    requires target in tree && Landed(landed, FinallyPlan(target, tree[target]))
    requires |landed| == 1 ==> landed[0] == Put(target, tree[target])
    ensures Safe(c, ApplyAll(d, landed), tree)
  {
    if landed != [] {
      var plan := FinallyPlan(target, tree[target]);
      assert plan[1..] == EndPlan();
      assert landed[0] == plan[0];
      assert Apply(d, landed[0]) == d;
      EndIsSafeUnmodified(c, d, tree);
      if |landed| == 1 {
        assert landed[1..] == [];
      } else {
        CrashIsSafe(c, d, tree, EndPlan(), landed[1..]);
      }
    }
  }

  /** A cut of two plans is a cut of the first, or the whole first and a cut of the second. */
  lemma {:induction false} LandedSplits(landed: seq<Effect>, first: seq<Effect>, then_: seq<Effect>)
    requires Landed(landed, first + then_)
    ensures Landed(landed, first)
         || (|first| <= |landed| && landed[..|first|] == first && Landed(landed[|first|..], then_))
    decreases first
  {
    if first == [] {
      assert first + then_ == then_;
      assert landed[0..] == landed;
    } else if landed != [] && landed[0] == first[0] && Landed(landed[1..], (first + then_)[1..]) {
      assert (first + then_)[1..] == first[1..] + then_;
      LandedSplits(landed[1..], first[1..], then_);
      if !Landed(landed[1..], first[1..]) {
        assert landed[..|first|] == [landed[0]] + landed[1..][..|first| - 1];
        assert landed[1..][|first| - 1..] == landed[|first|..];
      }
    }
  }

  /** A crash of a run that had no whole journal, anywhere but in the middle of the restoring write. */
  lemma UntornIsSafe(c: Codec, d: Disk, tree: Disk, target: Path, mutated: Bytes, id: string,
                     tried: seq<Effect>, landed: seq<Effect>)
    requires Sound(c) && Clean(d, tree) && target in tree
    requires Landed(tried, TryPlan(c, target, tree[target], mutated, id))
    requires !JournalWritten(c, tried, target, tree[target], id)
    requires Landed(landed, RunPlan(tried, target, tree[target]))
    requires !TornInRestore(tried, landed, target, tree[target])
    ensures Safe(c, ApplyAll(d, landed), tree)
  {
    var after := FinallyPlan(target, tree[target]);
    LandedSplits(landed, tried, after);
    if Landed(landed, tried) {
      TryIsSafe(c, d, tree, target, mutated, id);
      SafeWhenCut(c, d, tree, TryPlan(c, target, tree[target], mutated, id), tried);
      CrashIsSafe(c, d, tree, tried, landed);
    } else {
      var tail := landed[|tried|..];
      UnmodifiedAfterTry(c, d, tree, target, mutated, id, tried);
      WholeRestoreIsSafe(c, ApplyAll(d, tried), tree, target, tail);
      ApplyInSequence(d, tried, tail);
      assert landed == tried + tail;
    }
  }

  /** A torn restore over an unfinished journal, or none, is there to stay. */
  lemma TornIsLost(c: Codec, d: Disk, tree: Disk, target: Path, mutated: Bytes, id: string,
                   tried: seq<Effect>, landed: seq<Effect>)
    requires Sound(c) && Clean(d, tree) && target in tree
    requires Landed(tried, TryPlan(c, target, tree[target], mutated, id))
    requires !JournalWritten(c, tried, target, tree[target], id)
    requires Landed(landed, RunPlan(tried, target, tree[target]))
    requires TornInRestore(tried, landed, target, tree[target])
    ensures !Recoverable(c, ApplyAll(d, landed), tree)
  {
    LandedSplits(landed, tried, FinallyPlan(target, tree[target]));
    if Landed(landed, tried) {
      LandedNoLonger(landed, tried);
      assert false;
    }
    var tail := landed[|tried|..];
    assert tail == [landed[|tried|]] && landed == tried + tail && tail[1..] == [];
    UnmodifiedAfterTry(c, d, tree, target, mutated, id, tried);
    ApplyInSequence(d, tried, tail);
    var u := Apply(ApplyAll(d, tried), tail[0]);
    assert ApplyAll(d, landed) == u;
    assert RecoverPlan(c, u).1 == [];
    assert u[target] != tree[target];
  }

  /**
   The exact limit, crash by crash. When the `try` block raised, the `finally` block still rewrites
   the target. The crash is recoverable if and only if the journal had been written whole before the
   exception, or the crash is not one that tears the restoring write.
   */
  lemma CrashIsRecoverable(c: Codec, d: Disk, tree: Disk, target: Path, mutated: Bytes, id: string,
                           tried: seq<Effect>, landed: seq<Effect>)
    requires Sound(c) && Clean(d, tree) && target in tree
    requires Landed(tried, TryPlan(c, target, tree[target], mutated, id))
    requires Landed(landed, RunPlan(tried, target, tree[target]))
    ensures var spared := JournalWritten(c, tried, target, tree[target], id)
                       || !TornInRestore(tried, landed, target, tree[target]);
            && (Recoverable(c, ApplyAll(d, landed), tree) <==> spared)
            && (spared ==> Safe(c, ApplyAll(d, landed), tree))
  {
    if JournalWritten(c, tried, target, tree[target], id) {
      RunIsSafe(c, d, tree, target, mutated, id, tried);
      CrashIsSafe(c, d, tree, RunPlan(tried, target, tree[target]), landed);
      RecoveryRestores(c, ApplyAll(d, landed), tree);
    } else if !TornInRestore(tried, landed, target, tree[target]) {
      UntornIsSafe(c, d, tree, target, mutated, id, tried, landed);
      RecoveryRestores(c, ApplyAll(d, landed), tree);
    } else {
      TornIsLost(c, d, tree, target, mutated, id, tried, landed);
    }
  }

  /**
   The same of a whole run: every crash is recoverable if and only if the journal is whole or there is
   nothing to tear.
   */
  lemma RestoreNeedsJournal(c: Codec, d: Disk, tree: Disk, target: Path, mutated: Bytes, id: string, tried: seq<Effect>)
    requires Sound(c) && Clean(d, tree) && target in tree
    requires Landed(tried, TryPlan(c, target, tree[target], mutated, id))
    ensures (forall landed :: Landed(landed, RunPlan(tried, target, tree[target])) ==>
               Recoverable(c, ApplyAll(d, landed), tree))
            <==> (JournalWritten(c, tried, target, tree[target], id) || tree[target] == [])
  {
    var plan := RunPlan(tried, target, tree[target]);
    if JournalWritten(c, tried, target, tree[target], id) || tree[target] == [] {
      forall landed | Landed(landed, plan)
        ensures Recoverable(c, ApplyAll(d, landed), tree)
      {
        if tree[target] == [] {
          NothingToTear(tried, landed, target);
        }
        CrashIsRecoverable(c, d, tree, target, mutated, id, tried, landed);
      }
    } else {
      var torn := TornRestore(tried, target, tree[target]);
      CrashIsRecoverable(c, d, tree, target, mutated, id, tried, torn);
      assert !Recoverable(c, ApplyAll(d, torn), tree);
    }
  }

  lemma NothingToTear(tried: seq<Effect>, landed: seq<Effect>, target: Path)
    requires Landed(landed, RunPlan(tried, target, []))
    ensures !TornInRestore(tried, landed, target, [])
  {
    LandedSplits(landed, tried, FinallyPlan(target, []));
    if Landed(landed, tried) {
      LandedNoLonger(landed, tried);
    } else if |landed| == |tried| + 1 {
      assert landed[|tried|..][0] == landed[|tried|];
    }
  }

  /** The crash that is not recovered from: the restoring write has only truncated the file. */
  lemma TornRestore(tried: seq<Effect>, target: Path, original: Bytes) returns (landed: seq<Effect>)
    requires original != []
    ensures Landed(landed, RunPlan(tried, target, original))
    ensures TornInRestore(tried, landed, target, original)
  {
    var cut := [Put(target, [])];
    assert cut[1..] == [] && Landed(cut, FinallyPlan(target, original));
    LandedAfter(tried, cut, FinallyPlan(target, original));
    landed := tried + cut;
  }

  lemma {:induction false} ApplyInSequence(d: Disk, first: seq<Effect>, then_: seq<Effect>)
    ensures ApplyAll(d, first + then_) == ApplyAll(ApplyAll(d, first), then_)
    decreases first
  {
    if first == [] {
      assert first + then_ == then_;
    } else {
      ApplyInSequence(Apply(d, first[0]), first[1..], then_);
      assert (first + then_)[1..] == first[1..] + then_;
    }
  }

  // ---------------------------------------------------------------- what a run does to the tree

  /** The sources but `target` are as they were. */
  ghost predicate OthersKept(d: Disk, d': Disk, target: Path) {
    forall p :: IsSource(p) && p != target ==> (p in d' <==> p in d) && (p in d ==> d'[p] == d[p])
  }

  /** When the tests run, the mutant is in the tree, alone, and the journal says how to undo it. */
  lemma {:induction false} MutantIsInTheTree(c: Codec, d: Disk, target: Path, original: Bytes, mutated: Bytes,
                                             id: string)
    requires IsSource(target)
    ensures var d' := ApplyAll(d, TryPlan(c, target, original, mutated, id));
      && target in d' && d'[target] == mutated && OthersKept(d, d', target)
      && BACKUP in d' && d'[BACKUP] == original
      && JOURNAL in d' && d'[JOURNAL] == c.dump(Entry(id, target, c.digest(original)))
  {
    var plan := TryPlan(c, target, original, mutated, id);
    assert plan == [plan[0], plan[1], plan[2]];
    UnfoldThree(d, plan[0], plan[1], plan[2]);
  }

  predicate Touches(plan: seq<Effect>, target: Path) {
    forall e :: e in plan ==> e.path == target || e.path == JOURNAL || e.path == BACKUP
  }

  lemma {:induction false} OthersAreKept(d: Disk, plan: seq<Effect>, target: Path)
    requires Touches(plan, target)
    ensures OthersKept(d, ApplyAll(d, plan), target)
    decreases plan
  {
    if plan != [] {
      assert plan[0] in plan;
      OthersAreKept(Apply(d, plan[0]), plan[1..], target);
    }
  }

  lemma {:induction false} LandedTouches(landed: seq<Effect>, plan: seq<Effect>, target: Path)
    requires Landed(landed, plan) && Touches(plan, target)
    ensures Touches(landed, target)
    decreases plan
  {
    if landed != [] {
      assert plan[0] in plan;
      if landed[0] == plan[0] && Landed(landed[1..], plan[1..]) {
        LandedTouches(landed[1..], plan[1..], target);
      } else {
        assert landed == [landed[0]];
      }
    }
  }

  /** The sources are as they were, and nothing is pending. */
  ghost predicate LeavesTree(d: Disk, d': Disk, target: Path) {
    && OthersKept(d, d', target) && JOURNAL !in d' && BACKUP !in d'
    && target in d && target in d' && d'[target] == d[target]
  }

  /** After the run, whatever its `try` block got done: the original, no journal, no backup. */
  lemma {:induction false} RunRestores(c: Codec, d: Disk, target: Path, mutated: Bytes, id: string, tried: seq<Effect>)
    requires IsSource(target) && target in d && Landed(tried, TryPlan(c, target, d[target], mutated, id))
    ensures LeavesTree(d, ApplyAll(d, RunPlan(tried, target, d[target])), target)
  {
    var plan := TryPlan(c, target, d[target], mutated, id);
    LandedTouches(tried, plan, target);
    OthersAreKept(d, tried, target);
    ApplyInSequence(d, tried, FinallyPlan(target, d[target]));
    UnfoldThree(ApplyAll(d, tried), Put(target, d[target]), Unlink(JOURNAL), Unlink(BACKUP));
  }

  /** Backup, journal, and last the file with its one occurrence replaced. */
  ghost predicate AppliesEdit(tried: seq<Effect>, original: Bytes, m: Edit) {
    && |tried| == 3 && tried[0] == Put(BACKUP, original) && tried[1].Put? && tried[1].path == JOURNAL
    && tried[2].Put? && tried[2].path == m.file && IsEdit(original, m.find, m.replace, tried[2].data)
  }

  /** A run: the `try` block or a first part of it, then the `finally` block. */
  ghost predicate Ran(c: Codec, m: Edit, d: Disk, d': Disk, tried: seq<Effect>, raised: bool)
    requires m.file in d
  {
    var plan := TryPlan(c, m.file, d[m.file], ReplaceAll(d[m.file], m.find, m.replace), m.id);
    Landed(tried, plan) && (!raised ==> tried == plan) && d' == ApplyAll(d, RunPlan(tried, m.file, d[m.file]))
  }

  lemma {:induction false} RunResult(c: Codec, m: Edit, d: Disk, d': Disk, tried: seq<Effect>, raised: bool)
    requires IsSource(m.file) && m.file in d && Count(d[m.file], m.find) == 1 && Ran(c, m, d, d', tried, raised)
    ensures LeavesTree(d, d', m.file)
    ensures !raised ==> AppliesEdit(tried, d[m.file], m)
  {
    RunRestores(c, d, m.file, ReplaceAll(d[m.file], m.find, m.replace), m.id, tried);
    ReplacesTheFirst(d[m.file], m.find, m.replace);
  }

  // ---------------------------------------------------------------- every history

  /** What a process does to the disk until it ends or the host dies. */
  datatype Activity =
    | Recovery(landed: seq<Effect>)
    | Mutation(target: Path, mutated: Bytes, id: string, tried: seq<Effect>, landed: seq<Effect>)

  /**
   A mutation starts only where recovery left nothing pending. Its `try` block may have raised
   anywhere; the one thing ruled out is a crash that tears the restoring write of a run without a
   whole journal, which `CrashIsRecoverable` shows to be the one crash that loses the file.
   */
  ghost predicate MayHappen(c: Codec, d: Disk, a: Activity) {
    match a
    case Recovery(landed) => Landed(landed, RecoverPlan(c, d).1)
    case Mutation(target, mutated, id, tried, landed) =>
      && Pending(c, d) == None && IsSource(target) && target in d
      && Landed(tried, TryPlan(c, target, d[target], mutated, id))
      && Landed(landed, RunPlan(tried, target, d[target]))
      && (JournalWritten(c, tried, target, d[target], id) || !TornInRestore(tried, landed, target, d[target]))
  }

  ghost predicate History(c: Codec, d: Disk, acts: seq<Activity>)
    decreases acts
  {
    acts != [] ==> MayHappen(c, d, acts[0]) && History(c, ApplyAll(d, acts[0].landed), acts[1..])
  }

  function After(d: Disk, acts: seq<Activity>): Disk
    decreases acts
  {
    if acts == [] then d else After(ApplyAll(d, acts[0].landed), acts[1..])
  }

  /**
   Over every history of runs and recoveries that may happen, each ended by a crash or not: the disk is
   always safe, so the next `journal_recover` leaves exactly the tree there was before the first run.
   */
  lemma {:induction false} AlwaysRecoverable(c: Codec, d: Disk, tree: Disk, acts: seq<Activity>)
    requires Sound(c) && Safe(c, d, tree) && History(c, d, acts)
    ensures Safe(c, After(d, acts), tree) && Recoverable(c, After(d, acts), tree)
    decreases acts
  {
    if acts == [] {
      RecoveryRestores(c, d, tree);
    } else {
      ActivityIsSafe(c, d, tree, acts[0]);
      AlwaysRecoverable(c, ApplyAll(d, acts[0].landed), tree, acts[1..]);
    }
  }

  lemma ActivityIsSafe(c: Codec, d: Disk, tree: Disk, a: Activity)
    requires Sound(c) && Safe(c, d, tree) && MayHappen(c, d, a)
    ensures Safe(c, ApplyAll(d, a.landed), tree)
  {
    match a
    case Recovery(landed) =>
      RecoveryIsSafe(c, d, tree);
      CrashIsSafe(c, d, tree, RecoverPlan(c, d).1, landed);
    case Mutation(target, mutated, id, tried, landed) =>
      assert Clean(d, tree);
      CrashIsRecoverable(c, d, tree, target, mutated, id, tried, landed);
  }

  // ---------------------------------------------------------------- writes that raise

  /** What becomes of a write that may raise: it lands, or it raises, perhaps with so many bytes landed. */
  datatype Fault = Fine | Raises(landed: Option<nat>)

  /** What writes one after another leave: the effects, whether one raised, and what awaits later ones. */
  datatype Attempt = Attempt(done: seq<Effect>, raised: bool, faults: seq<Fault>)

  function Upcoming(faults: seq<Fault>): Fault {
    if faults == [] then Fine else faults[0]
  }

  function Later(faults: seq<Fault>): seq<Fault> {
    if faults == [] then [] else faults[1..]
  }

  function Cut(e: Effect, n: nat): Effect {
    match e
    case Put(path, data) => Put(path, data[..if n < |data| then n else |data|])
    case Unlink(_) => e
  }

  /** The writes of a plan up to the first that raises. */
  function Attempts(plan: seq<Effect>, faults: seq<Fault>): Attempt
    decreases |plan|
  {
    if plan == [] then Attempt([], false, faults)
    else
      match Upcoming(faults)
      case Fine => var more := Attempts(plan[1..], Later(faults)); more.(done := [plan[0]] + more.done)
      case Raises(None) => Attempt([], true, Later(faults))
      case Raises(Some(n)) => Attempt([Cut(plan[0], n)], true, Later(faults))
  }

  predicate OnlyPuts(plan: seq<Effect>) {
    forall e :: e in plan ==> e.Put?
  }

  /** All of the plan, or a first part of it when one raised. */
  lemma {:induction false} AttemptsLand(plan: seq<Effect>, faults: seq<Fault>)
    requires OnlyPuts(plan)
    ensures var a := Attempts(plan, faults); Landed(a.done, plan) && (!a.raised ==> a.done == plan)
    decreases |plan|
  {
    if plan != [] {
      assert plan[0] in plan;
      if Upcoming(faults).Fine? {
        AttemptsLand(plan[1..], Later(faults));
        var done := Attempts(plan[1..], Later(faults)).done;
        assert ([plan[0]] + done)[1..] == done;
      }
    }
  }

  lemma Regroup(a: seq<Effect>, b: seq<Effect>, c: seq<Effect>)
    ensures a + (b + c) == a + b + c
  {
  }

  /** The second part of a plan is attempted when the first did not raise. */
  lemma {:induction false} AttemptsJoin(a: seq<Effect>, b: seq<Effect>, faults: seq<Fault>)
    ensures var x := Attempts(a, faults);
            Attempts(a + b, faults) ==
            if x.raised then x else var y := Attempts(b, x.faults); y.(done := x.done + y.done)
    decreases |a|
  {
    if a == [] {
      assert a + b == b;
      assert [] + Attempts(b, faults).done == Attempts(b, faults).done;
    } else {
      assert (a + b)[1..] == a[1..] + b;
      AttemptsJoin(a[1..], b, Later(faults));
      var x := Attempts(a[1..], Later(faults));
      Regroup([a[0]], x.done, Attempts(b, x.faults).done);
    }
  }

  // ---------------------------------------------------------------- the runner as it runs

  /** The file system, what will become of the writes to it that may raise, and the record of what was done to it. */
  class Files {
    var files: Disk
    var faults: seq<Fault>
    ghost var log: seq<Effect>

    constructor (files: Disk, faults: seq<Fault>)
      ensures this.files == files && this.faults == faults && log == []
    {
      this.files, this.faults, log := files, faults, [];
    }

    /** `_write_durably`, `write_bytes`. */
    method Write(path: Path, data: Bytes)
      modifies this
      ensures files == Apply(old(files), Put(path, data)) && log == old(log) + [Put(path, data)]
      ensures faults == old(faults)
    {
      files, log := files[path := data], log + [Put(path, data)];
    }

    /** A write that may raise, a full disk say: then it has landed in part or not at all. */
    method TryWrite(path: Path, data: Bytes) returns (raised: bool, ghost done: seq<Effect>)
      modifies this
      ensures Attempt(done, raised, faults) == Attempts([Put(path, data)], old(faults))
      ensures files == ApplyAll(old(files), done) && log == old(log) + done
    {
      var fault := Upcoming(faults);
      faults, raised, done := Later(faults), fault.Raises?, [];
      if fault.Fine? {
        Write(path, data);
        done := [Put(path, data)];
      } else if fault.landed.Some? {
        var part := if fault.landed.value < |data| then fault.landed.value else |data|;
        Write(path, data[..part]);
        done := [Put(path, data[..part])];
      }
      assert [Put(path, data)][1..] == [] && [Put(path, data)] + [] == [Put(path, data)];
      assert done != [] ==> done[1..] == [] && ApplyAll(old(files), done) == Apply(old(files), done[0]);
    }

    /** `unlink(missing_ok=True)`. */
    method Remove(path: Path)
      modifies this
      ensures files == Apply(old(files), Unlink(path)) && log == old(log) + [Unlink(path)]
    {
      files, log := files - {path}, log + [Unlink(path)];
    }
  }

  /** The runner's process: the disk, and the dictionary of files to put back. */
  class Runner {
    const c: Codec
    const disk: Files
    var restore: seq<(Path, Bytes)>

    constructor (c: Codec, disk: Files)
      ensures this.c == c && this.disk == disk && restore == []
    {
      this.c, this.disk, restore := c, disk, [];
    }

    /** `journal_begin`, whose writes may raise. */
    method JournalBegin(target: Path, original: Bytes, id: string) returns (raised: bool, ghost done: seq<Effect>)
      modifies disk
      ensures Attempt(done, raised, disk.faults) == Attempts(BeginPlan(c, target, original, id), old(disk.faults))
      ensures disk.files == ApplyAll(old(disk.files), done) && disk.log == old(disk.log) + done
    {
      var journal := c.dump(Entry(id, target, c.digest(original)));
      AttemptsJoin([Put(BACKUP, original)], [Put(JOURNAL, journal)], disk.faults);
      raised, done := disk.TryWrite(BACKUP, original);
      assert [Put(BACKUP, original)] + [Put(JOURNAL, journal)] == BeginPlan(c, target, original, id);
      if !raised {
        ghost var first := done;
        raised, done := disk.TryWrite(JOURNAL, journal);
        ApplyInSequence(old(disk.files), first, done);
        done := first + done;
      }
    }

    method JournalEnd()
      modifies disk
      ensures disk.files == ApplyAll(old(disk.files), EndPlan())
      ensures disk.log == old(disk.log) + EndPlan()
    {
      disk.Remove(JOURNAL);
      disk.Remove(BACKUP);
      UnfoldTwo(old(disk.files), Unlink(JOURNAL), Unlink(BACKUP));
    }

    method JournalPending() returns (r: Option<Entry>)
      ensures r == Pending(c, disk.files)
    {
      if JOURNAL !in disk.files {
        return None;
      }
      r := c.parse(disk.files[JOURNAL]);
      if r.None? {
        return Some(Entry("?", "?", ""));
      }
    }

    /** `journal_recover`; the two refusals are its RuntimeErrors. */
    method JournalRecover() returns (verdict: Verdict)
      modifies disk
      ensures verdict == RecoverPlan(c, old(disk.files)).0
      ensures disk.files == ApplyAll(old(disk.files), RecoverPlan(c, old(disk.files)).1)
      ensures disk.log == old(disk.log) + RecoverPlan(c, old(disk.files)).1
    {
      var entry := JournalPending();
      if entry.None? {
        return NothingPending;
      }
      if BACKUP !in disk.files {
        return BackupMissing;
      }
      var original := disk.files[BACKUP];
      if c.digest(original) != entry.value.sha256 {
        return BackupMismatch;
      }
      disk.Write(entry.value.file, original);
      JournalEnd();
      UnfoldThree(old(disk.files), Put(entry.value.file, original), Unlink(JOURNAL), Unlink(BACKUP));
      UnfoldTwo(Apply(old(disk.files), Put(entry.value.file, original)), Unlink(JOURNAL), Unlink(BACKUP));
      return Recovered;
    }

    /** `_restore_all`: every file of the dictionary, in order, until it is empty. */
    method RestoreAll()
      modifies this, disk
      ensures restore == []
      ensures disk.files == ApplyAll(old(disk.files), RestorePlan(old(restore)))
      ensures disk.log == old(disk.log) + RestorePlan(old(restore))
    {
      while restore != []
        invariant ApplyAll(disk.files, RestorePlan(restore)) == ApplyAll(old(disk.files), RestorePlan(old(restore)))
        invariant disk.log + RestorePlan(restore) == old(disk.log) + RestorePlan(old(restore))
        decreases |restore|
      {
        var (path, original) := restore[0];
        disk.Write(path, original);
        restore := restore[1..];
      }
    }

    /** The `try` block: journal, mutate, run the tests. Any of its steps may raise. */
    method TryMutation(target: Path, original: Bytes, mutated: Bytes, id: string, testsRaise: bool)
        returns (raised: bool, ghost tried: seq<Effect>)
      modifies disk
      ensures var a := Attempts(TryPlan(c, target, original, mutated, id), old(disk.faults));
              tried == a.done && raised == (a.raised || testsRaise)
      ensures disk.files == ApplyAll(old(disk.files), tried) && disk.log == old(disk.log) + tried
    {
      AttemptsJoin(BeginPlan(c, target, original, id), [Put(target, mutated)], disk.faults);
      raised, tried := JournalBegin(target, original, id);
      if !raised {
        ghost var begin, done := tried, [];
        raised, done := disk.TryWrite(target, mutated);
        ApplyInSequence(old(disk.files), begin, done);
        tried := begin + done;
      }
      raised := raised || testsRaise;
    }

    /**
     `run_one` up to the verdict on the tests, which are a black box here. An edit that does not apply
     touches nothing. Otherwise the effects are exactly those of a run whose `try` block got `tried`
     done, so every prefix of them is one of the crash points above; the exception, if there was one,
     is passed on after the `finally` block.
     */
    method RunOne(m: Edit, testsRaise: bool) returns (applied: bool, raised: bool, ghost tried: seq<Effect>)
      requires restore == [] && m.file in disk.files && IsSource(m.file)
      modifies this, disk
      ensures restore == []
      ensures applied == (m.find != m.replace && Count(old(disk.files[m.file]), m.find) == 1)
      ensures !applied ==> !raised && disk.files == old(disk.files) && disk.log == old(disk.log)
      ensures applied ==> Ran(c, m, old(disk.files), disk.files, tried, raised)
      ensures applied ==> Tried(c, m, old(disk.files), old(disk.faults), testsRaise, tried, raised)
      ensures applied ==> disk.log == old(disk.log) + RunPlan(tried, m.file, old(disk.files[m.file]))
      ensures applied ==> LeavesTree(old(disk.files), disk.files, m.file)
      ensures applied && !raised ==> AppliesEdit(tried, old(disk.files[m.file]), m)
    {
      raised, tried := false, [];
      var original := disk.files[m.file];
      if m.find == m.replace || Count(original, m.find) != 1 {
        return false, false, [];
      }
      var mutated := ReplaceAll(original, m.find, m.replace);
      restore := restore + [(m.file, original)];
      AttemptsLand(TryPlan(c, m.file, original, mutated, m.id), disk.faults);
      raised, tried := TryMutation(m.file, original, mutated, m.id, testsRaise);
      RestoreAll();
      JournalEnd();
      RunUnfolds(old(disk.files), tried, m.file, original);
      RunResult(c, m, old(disk.files), disk.files, tried, raised);
      applied := true;
    }
  }

  lemma RunUnfolds(d: Disk, tried: seq<Effect>, target: Path, original: Bytes)
    ensures RestorePlan([(target, original)]) == [Put(target, original)]
    ensures var plan := RunPlan(tried, target, original);
            && plan == tried + [Put(target, original)] + EndPlan()
            && ApplyAll(d, plan) == ApplyAll(ApplyAll(ApplyAll(d, tried), [Put(target, original)]), EndPlan())
  {
    assert RunPlan(tried, target, original) == tried + [Put(target, original)] + EndPlan();
    ApplyInSequence(d, tried + [Put(target, original)], EndPlan());
    ApplyInSequence(d, tried, [Put(target, original)]);
  }

  /** What the `try` block got done, and whether it raised, follows from the writes and the tests. */
  ghost predicate Tried(c: Codec, m: Edit, d: Disk, faults: seq<Fault>, testsRaise: bool,
                        tried: seq<Effect>, raised: bool)
    requires m.file in d
  {
    var a := Attempts(TryPlan(c, m.file, d[m.file], ReplaceAll(d[m.file], m.find, m.replace), m.id), faults);
    tried == a.done && raised == (a.raised || testsRaise)
  }

  function RestorePlan(items: seq<(Path, Bytes)>): seq<Effect> {
    if items == [] then [] else [Put(items[0].0, items[0].1)] + RestorePlan(items[1..])
  }

  lemma UnfoldOne(d: Disk, a: Effect)
    ensures ApplyAll(d, [a]) == Apply(d, a)
  {
    assert [a][1..] == [];
  }

  lemma UnfoldTwo(d: Disk, a: Effect, b: Effect)
    ensures ApplyAll(d, [a, b]) == Apply(Apply(d, a), b)
  {
    assert [a, b][1..] == [b];
    UnfoldOne(Apply(d, a), b);
  }
}
