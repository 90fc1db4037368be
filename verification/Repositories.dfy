/**
  Several repositories with a log ref each.  In each of them any number of
  processes run the commands of ratchet.go, and log commits travel from one to
  another by fetches and pushes, which move a ref only forward.
 */
module Repositories {
  import opened Wrappers
  import opened Hashing
  import opened GitUtil
  import opened GitLog
  import opened LogStore
  import opened Chains
  import opened Ratchet
  import opened Runs
  import opened Interleaving

  /** The repositories by number; one that is not listed has no log yet. */
  type World = map<nat, Store>

  /** A step of a process in one repository, or a commit that arrives there. */
  datatype Move = Local(r: nat, e: Event) | Arrive(r: nat, commit: Commit)

  function StoreOf(w: World, r: nat): Store {
    if r in w then w[r] else Store(None, map[])
  }

  ghost function Moved(w: World, m: Move): World {
    match m
    case Local(r, e) => w[r := Step(StoreOf(w, r), e)]
    case Arrive(r, commit) => w[r := Step(StoreOf(w, r), Push(commit))]
  }

  ghost function AfterMoves(w: World, moves: seq<Move>): World
    decreases |moves|
  {
    if moves == [] then w else AfterMoves(Moved(w, moves[0]), moves[1..])
  }

  /** The commit is the log of some repository, or was: it may have been under way for long. */
  ghost predicate Known(w: World, commit: Commit) {
    exists r :: AtOrAfter(StoreOf(w, r).ref, Some(commit))
  }

  /** What happens: steps of the commands, and commits that come from one of the repositories. */
  ghost predicate ByRules(sha: Sha, anc: Ancestry, w: World, m: Move) {
    match m
    case Local(r, e) => !e.Push? && ByRatchet(sha, anc, StoreOf(w, r), e)
    case Arrive(_, commit) => Known(w, commit)
  }

  ghost predicate MovesByRules(sha: Sha, anc: Ancestry, w: World, moves: seq<Move>)
    decreases |moves|
  {
    moves == [] || (ByRules(sha, anc, w, moves[0]) && MovesByRules(sha, anc, Moved(w, moves[0]), moves[1..]))
  }

  // ---------- What is kept ----------

  /** Every commit in the history of a log ref keeps the rule, and extends the entries of the one before it. */
  ghost predicate History(sha: Sha, anc: Ancestry, ref: Option<Commit>)
    decreases ref
  {
    ref.Some? ==>
      && Sound(sha, anc, ref) && EntriesAt(ref.value.parent) <= EntriesAt(ref)
      && History(sha, anc, ref.value.parent)
  }

  /** A later commit extends the entries of an earlier one. */
  lemma {:induction false} HistoryGrows(sha: Sha, anc: Ancestry, c: Commit, head: Option<Commit>)
    requires History(sha, anc, Some(c)) && Descends(c, head)
    ensures History(sha, anc, head) && EntriesAt(head) <= EntriesAt(Some(c))
    decreases c
  {
    if head.Some? && c.parent != head { HistoryGrows(sha, anc, c.parent.value, head); }
  }

  ghost predicate StoreKept(sha: Sha, anc: Ancestry, s: Store) {
    Ruled(sha, anc, s) && History(sha, anc, s.ref)
  }

  ghost predicate Kept(sha: Sha, anc: Ancestry, w: World) {
    forall r :: StoreKept(sha, anc, StoreOf(w, r))
  }

  /** A step of a command adds to the history. */
  lemma LocalKept(sha: Sha, anc: Ancestry, s: Store, e: Event)
    requires IsAncestry(anc) && StoreKept(sha, anc, s) && !e.Push? && ByRatchet(sha, anc, s, e)
    ensures StoreKept(sha, anc, Step(s, e)) && EntriesAt(s.ref) <= EntriesAt(Step(s, e).ref)
  {
    StepKeepsRule(sha, anc, s, e);
    StepByCommands(sha, anc, s, e);
    StepGrows(sha, s, e);
  }

  /** A commit out of the history of a log ref has such a history itself. */
  lemma EarlierHistory(sha: Sha, anc: Ancestry, from: Option<Commit>, commit: Commit)
    requires History(sha, anc, from) && AtOrAfter(from, Some(commit))
    ensures History(sha, anc, Some(commit)) && Sound(sha, anc, Some(commit))
  {
    if from != Some(commit) { HistoryGrows(sha, anc, from.value, Some(commit)); }
  }

  /** Such a commit moves the ref forward, or not at all. */
  lemma ArrivalKept(sha: Sha, anc: Ancestry, s: Store, commit: Commit)
    requires IsAncestry(anc) && StoreKept(sha, anc, s)
    requires History(sha, anc, Some(commit)) && Sound(sha, anc, Some(commit))
    ensures StoreKept(sha, anc, Step(s, Push(commit)))
    ensures EntriesAt(s.ref) <= EntriesAt(Step(s, Push(commit)).ref)
  {
    if Descends(commit, s.ref) {
      HistoryGrows(sha, anc, commit, s.ref);
      StepKeepsRule(sha, anc, s, Push(commit));
    }
  }

  lemma MoveKept(sha: Sha, anc: Ancestry, w: World, m: Move, r: nat)
    requires IsAncestry(anc) && Kept(sha, anc, w) && ByRules(sha, anc, w, m)
    ensures StoreKept(sha, anc, StoreOf(Moved(w, m), r))
    ensures EntriesAt(StoreOf(w, r).ref) <= EntriesAt(StoreOf(Moved(w, m), r).ref)
  {
    var s := StoreOf(w, m.r);
    assert StoreKept(sha, anc, s) && StoreKept(sha, anc, StoreOf(w, r));
    match m
    case Local(_, e) => LocalKept(sha, anc, s, e);
    case Arrive(_, commit) =>
      var q :| AtOrAfter(StoreOf(w, q).ref, Some(commit));
      assert StoreKept(sha, anc, StoreOf(w, q));
      EarlierHistory(sha, anc, StoreOf(w, q).ref, commit);
      ArrivalKept(sha, anc, s, commit);
  }

  /**
    The ratchet rule in every repository, however the git calls of all processes
    overlap and whatever commits travel between the repositories: the entries of
    each log only grow, its stored checkpoint fits them, every ref's records keep
    the rule, and no ref is recorded twice in a row at one object.
   */
  lemma {:induction false} RepositoriesKeepRule(sha: Sha, anc: Ancestry, w: World, moves: seq<Move>, r: nat)
    requires IsAncestry(anc) && Kept(sha, anc, w) && MovesByRules(sha, anc, w, moves)
    ensures Kept(sha, anc, AfterMoves(w, moves))
    ensures EntriesAt(StoreOf(w, r).ref) <= EntriesAt(StoreOf(AfterMoves(w, moves), r).ref)
    decreases |moves|
  {
    if moves != [] {
      var next := Moved(w, moves[0]);
      forall q
        ensures StoreKept(sha, anc, StoreOf(next, q))
      {
        MoveKept(sha, anc, w, moves[0], q);
      }
      MoveKept(sha, anc, w, moves[0], r);
      RepositoriesKeepRule(sha, anc, next, moves[1..], r);
    }
  }

  /** From nothing: in every such run a clone that has the logged objects accepts every chain of every log. */
  lemma RepositoriesFromNothing(sha: Sha, clone: Clone, moves: seq<Move>, r: nat)
    requires IsAncestry(clone.anc) && MovesByRules(sha, clone.anc, map[], moves)
    ensures var ref := StoreOf(AfterMoves(map[], moves), r).ref;
            && Opened(ref).Ok? && (forall name :: RefKept(clone.anc, EntriesAt(ref), name))
            && ((forall name :: AllPresent(clone, RecordsOf(EntriesAt(ref), name))) ==>
                  LogChainsOk(clone, EntriesAt(ref)))
  {
    RepositoriesKeepRule(sha, clone.anc, map[], moves, r);
    var after := AfterMoves(map[], moves);
    assert StoreKept(sha, clone.anc, StoreOf(after, r));
    var ref := StoreOf(after, r).ref;
    if forall name :: AllPresent(clone, RecordsOf(EntriesAt(ref), name)) {
      KeptAccepted(sha, clone, ref);
    }
  }
}
