/**
  The two-replica prompt protocol (scripts/sync_prompts.py, scripts/deploy_prompts.py,
  scripts/prompt_history.py). A prompt lives in the working file, in the git index, in the file's commit
  history and as Langfuse production content; people edit either side, and the two scripts
  move content across. Texts are free of carriage returns.
 */
module PromptProtocol {
  import opened Wrappers

  type Name = string
  type Text = string

  /** The commits that touched a file, newest first: its content, or nothing where it was deleted. */
  type Log = seq<Option<Text>>

  /** `index` is what the next commit will hold of every file. */
  datatype World = World(
    files: map<Name, Text>, index: map<Name, Text>, history: map<Name, Log>, remote: map<Name, Text>)

  const HISTORY_LIMIT := 300

  // ----- git -----------------------------------------------------------------

  function Versions(w: World, n: Name): Log {
    if n in w.history then w.history[n] else []
  }

  function HeadOf(w: World, n: Name): Option<Text> {
    if Versions(w, n) == [] then None else Versions(w, n)[0]
  }

  function IndexOf(w: World, n: Name): Option<Text> {
    if n in w.index then Some(w.index[n]) else None
  }

  /** The next commit will change the file. */
  predicate Staged(w: World, n: Name) {
    IndexOf(w, n) != HeadOf(w, n)
  }

  predicate FullyStaged(w: World, n: Name)
    requires n in w.files
  {
    IndexOf(w, n) == Some(w.files[n])
  }

  /** `git status` reports the file: the working file, the index and the last commit are not all the same. */
  predicate Uncommitted(w: World, n: Name)
    requires n in w.files
  {
    !FullyStaged(w, n) || Staged(w, n)
  }

  /** `git commit` without a path takes the whole index. */
  function Commit(w: World): World {
    w.(history := map n | n in w.index.Keys + w.history.Keys ::
         if Staged(w, n) then [IndexOf(w, n)] + Versions(w, n) else Versions(w, n))
  }

  lemma CommitVersions(w: World, n: Name)
    ensures Versions(Commit(w), n) == if Staged(w, n) then [IndexOf(w, n)] + Versions(w, n) else Versions(w, n)
  {
  }

  // ----- prompt_history ------------------------------------------------------

  /** The position of the first of the newest `limit` commits whose content equals `text`. */
  function FirstMatch(versions: Log, text: Text, limit: nat): Option<nat> {
    if versions == [] || limit == 0 then None
    else if versions[0] == Some(text) then Some(0)
    else
      match FirstMatch(versions[1..], text, limit - 1)
      case None => None
      case Some(k) => Some(k + 1)
  }

  function Newest(versions: Log, limit: nat): Log {
    if |versions| <= limit then versions else versions[..limit]
  }

  predicate Scanned(w: World, n: Name, text: Text) {
    FirstMatch(Versions(w, n), text, HISTORY_LIMIT).Some?
  }

  /** A text counts as historical exactly when it is the content of one of the newest 300 commits of the file. */
  lemma {:induction false} MatchIff(versions: Log, text: Text, limit: nat)
    ensures FirstMatch(versions, text, limit).Some? <==> Some(text) in Newest(versions, limit)
    decreases limit
  {
    if versions != [] && limit > 0 {
      MatchIff(versions[1..], text, limit - 1);
      assert Newest(versions, limit) == [versions[0]] + Newest(versions[1..], limit - 1);
    }
  }

  /** The position found is that of the newest match. */
  lemma {:induction false} MatchIsNewest(versions: Log, text: Text, limit: nat)
    requires FirstMatch(versions, text, limit).Some?
    ensures var k := FirstMatch(versions, text, limit).value;
            k < |versions| && k < limit && versions[k] == Some(text) && forall j :: 0 <= j < k ==> versions[j] != Some(text)
    decreases limit
  {
    if versions[0] != Some(text) {
      MatchIsNewest(versions[1..], text, limit - 1);
    }
  }

  /** A shorter scan finds the same, unless the match lies beyond its end. */
  lemma {:induction false} ShorterScan(versions: Log, text: Text, limit: nat)
    requires limit > 0
    ensures var m := FirstMatch(versions, text, limit);
            FirstMatch(versions, text, limit - 1) == if m.Some? && m.value < limit - 1 then m else None
    decreases limit
  {
    if versions != [] && limit > 1 {
      ShorterScan(versions[1..], text, limit - 1);
    }
  }

  lemma ScannedIsCommitted(w: World, n: Name, text: Text)
    requires Scanned(w, n, text)
    ensures Some(text) in Versions(w, n)
  {
    MatchIff(Versions(w, n), text, HISTORY_LIMIT);
  }

  lemma HeadIsScanned(w: World, n: Name, text: Text)
    requires HeadOf(w, n) == Some(text)
    ensures Scanned(w, n, text)
  {
  }

  // ----- sync_prompts --------------------------------------------------------

  datatype Status = Collect | Rollback | InSync | LocalOnly | RemoteError

  datatype Action = Action(name: Name, status: Status, remoteText: Text)

  /** The verdict on one prompt; `down` are the names whose fetch fails. */
  function StatusOf(w: World, n: Name, down: set<Name>): Status
    requires n in w.files
  {
    if n in down then RemoteError
    else if n !in w.remote then LocalOnly
    else if w.files[n] == w.remote[n] then InSync
    else if Scanned(w, n, w.remote[n]) then Rollback
    else Collect
  }

  /** `names` is the directory listing: every file once, in the order the script treats them. */
  ghost predicate Listing(names: seq<Name>, files: map<Name, Text>) {
    && (forall i, j :: 0 <= i < j < |names| ==> names[i] != names[j])
    && forall n :: n in names <==> n in files
  }

  /** The working file and the index take the text, and everything in the index is committed. */
  function Collected(w: World, n: Name, text: Text): World {
    Commit(w.(files := w.files[n := text], index := w.index[n := text]))
  }

  /** The world after the first `i` files; the verdicts were taken before the first. */
  function SyncTo(w: World, names: seq<Name>, i: nat, down: set<Name>): World
    requires i <= |names| && forall n :: n in names ==> n in w.files
    ensures SyncTo(w, names, i, down).files.Keys == w.files.Keys
  {
    if i == 0 then w
    else
      var s, n := SyncTo(w, names, i - 1, down), names[i - 1];
      if StatusOf(w, n, down) == Collect && !Uncommitted(s, n) then Collected(s, n, w.remote[n]) else s
  }

  function Sync(w: World, names: seq<Name>, down: set<Name>): (s: World)
    requires forall n :: n in names ==> n in w.files
    ensures s.files.Keys == w.files.Keys
  {
    SyncTo(w, names, |names|, down)
  }

  /** When its turn comes, file `k` has changes that are not committed: it is left alone and reported. */
  predicate ConflictAt(w: World, names: seq<Name>, k: nat, down: set<Name>)
    requires k < |names| && forall n :: n in names ==> n in w.files
  {
    StatusOf(w, names[k], down) == Collect && Uncommitted(SyncTo(w, names, k, down), names[k])
  }

  // ----- The decisions, said of files and commits ----------------------------

  /** One of the newest 300 commits of the file left it with this text. */
  ghost predicate AmongNewest(w: World, n: Name, text: Text) {
    n in w.history && exists k :: 0 <= k < |w.history[n]| && k < 300 && w.history[n][k] == Some(text)
  }

  lemma ScannedIff(w: World, n: Name, text: Text)
    ensures Scanned(w, n, text) <==> AmongNewest(w, n, text)
  {
    var versions := Versions(w, n);
    MatchIff(versions, text, HISTORY_LIMIT);
    if Scanned(w, n, text) {
      MatchIsNewest(versions, text, HISTORY_LIMIT);
    }
    if AmongNewest(w, n, text) {
      var k :| 0 <= k < |versions| && k < 300 && versions[k] == Some(text);
      assert Newest(versions, HISTORY_LIMIT)[k] == Some(text);
    }
  }

  /** The file is what the index holds and what its newest commit left; anything else is an uncommitted change. */
  ghost predicate AsCommitted(w: World, n: Name)
    requires n in w.files
  {
    && n in w.index && w.index[n] == w.files[n]
    && n in w.history && |w.history[n]| > 0 && w.history[n][0] == Some(w.files[n])
  }

  lemma UncommittedIff(w: World, n: Name)
    requires n in w.files
    ensures Uncommitted(w, n) <==> !AsCommitted(w, n)
    ensures FullyStaged(w, n) <==> n in w.index && w.index[n] == w.files[n]
  {
  }

  /** The next commit changes a file exactly when the index holds another text than the newest commit left, or none. */
  lemma StagedIff(w: World, n: Name)
    ensures Staged(w, n) <==>
              if n in w.index then !(n in w.history && |w.history[n]| > 0 && w.history[n][0] == Some(w.index[n]))
              else n in w.history && |w.history[n]| > 0 && w.history[n][0] != None
  {
  }

  /** Which verdict a file gets. */
  lemma StatusIs(w: World, n: Name, down: set<Name>)
    requires n in w.files
    ensures StatusOf(w, n, down) == RemoteError <==> n in down
    ensures StatusOf(w, n, down) == LocalOnly <==> n !in down && n !in w.remote
    ensures StatusOf(w, n, down) == InSync <==> n !in down && n in w.remote && w.remote[n] == w.files[n]
    ensures StatusOf(w, n, down) == Rollback <==>
              n !in down && n in w.remote && w.remote[n] != w.files[n] && AmongNewest(w, n, w.remote[n])
    ensures StatusOf(w, n, down) == Collect <==>
              n !in down && n in w.remote && w.remote[n] != w.files[n] && !AmongNewest(w, n, w.remote[n])
  {
    hide Scanned, AmongNewest;
    if n in w.remote {
      ScannedIff(w, n, w.remote[n]);
    }
  }

  // ----- What one sync does --------------------------------------------------

  /** A file before `k` is collected: one without uncommitted changes whose production content git does not know. */
  ghost predicate EarlierCollect(w: World, names: seq<Name>, k: nat, down: set<Name>)
    requires k <= |names| && forall n :: n in names ==> n in w.files
  {
    exists j :: 0 <= j < k && StatusOf(w, names[j], down) == Collect && !Uncommitted(w, names[j])
  }

  /** File `k` is collected, said of the world before the sync. */
  ghost predicate Collects(w: World, names: seq<Name>, k: nat, down: set<Name>)
    requires k < |names| && forall n :: n in names ==> n in w.files
  {
    && StatusOf(w, names[k], down) == Collect
    && (Uncommitted(w, names[k]) ==> FullyStaged(w, names[k]) && EarlierCollect(w, names, k, down))
  }

  /** The first collection commits whatever was staged. */
  ghost function SweptVersions(w: World, names: seq<Name>, i: nat, down: set<Name>, n: Name): Log
    requires i <= |names| && forall n :: n in names ==> n in w.files
  {
    if EarlierCollect(w, names, i, down) && Staged(w, n) then [IndexOf(w, n)] + Versions(w, n) else Versions(w, n)
  }

  /** Nothing but its history has changed of `n`, and that only by the sweep. */
  ghost predicate OnlySwept(w: World, s: World, names: seq<Name>, i: nat, down: set<Name>, n: Name)
    requires i <= |names| && forall n :: n in names ==> n in w.files
  {
    && (n in s.files <==> n in w.files) && (n in w.files ==> s.files[n] == w.files[n])
    && IndexOf(s, n) == IndexOf(w, n) && Versions(s, n) == SweptVersions(w, names, i, down, n)
  }

  ghost predicate IsCollected(w: World, s: World, names: seq<Name>, k: nat, down: set<Name>)
    requires k < |names| && forall n :: n in names ==> n in w.files
    requires StatusOf(w, names[k], down) == Collect
  {
    var n := names[k];
    && n in s.files && s.files[n] == w.remote[n] && IndexOf(s, n) == Some(w.remote[n])
    && Versions(s, n) == [Some(w.remote[n])] + SweptVersions(w, names, k, down, n)
  }

  /** What is true of every file after the first `i` of the listing. */
  ghost predicate Treated(w: World, s: World, names: seq<Name>, i: nat, down: set<Name>)
    requires i <= |names| && forall n :: n in names ==> n in w.files
  {
    && s.remote == w.remote
    && (forall k :: 0 <= k < i && Collects(w, names, k, down) ==> IsCollected(w, s, names, k, down))
    && (forall k :: 0 <= k < |names| && !(k < i && Collects(w, names, k, down)) ==>
          OnlySwept(w, s, names, i, down, names[k]))
    && forall n :: n !in names ==> OnlySwept(w, s, names, i, down, n)
  }

  lemma CollectedEffect(s: World, n: Name, text: Text, m: Name)
    requires n in s.files && !Uncommitted(s, n) && s.files[n] != text
    ensures var t := Collected(s, n, text);
            && t.remote == s.remote && t.files == s.files[n := text]
            && (m == n ==> IndexOf(t, n) == Some(text) && Versions(t, n) == [Some(text)] + Versions(s, n))
            && (m != n ==> IndexOf(t, m) == IndexOf(s, m)
                           && Versions(t, m) == if Staged(s, m) then [IndexOf(s, m)] + Versions(s, m) else Versions(s, m))
  {
    CommitVersions(s.(files := s.files[n := text], index := s.index[n := text]), m);
  }

  lemma CollectedKeepsRemote(s: World, n: Name, text: Text)
    ensures Collected(s, n, text).remote == s.remote
  {
  }

  /** At its turn, an untreated file is collected exactly when it was to be in the world before the sync. */
  lemma TurnIff(w: World, s: World, names: seq<Name>, k: nat, down: set<Name>)
    requires k < |names| && (forall n :: n in names ==> n in w.files) && OnlySwept(w, s, names, k, down, names[k])
    ensures StatusOf(w, names[k], down) == Collect && !Uncommitted(s, names[k]) <==> Collects(w, names, k, down)
  {
    hide StatusOf, EarlierCollect, Versions;
  }

  lemma EarlierOfMore(w: World, names: seq<Name>, i: nat, down: set<Name>)
    requires i < |names| && forall n :: n in names ==> n in w.files
    ensures EarlierCollect(w, names, i + 1, down) <==>
              EarlierCollect(w, names, i, down) || (StatusOf(w, names[i], down) == Collect && !Uncommitted(w, names[i]))
  {
    hide StatusOf, Uncommitted;
  }

  /** A file that is not collected at turn `i` changes nothing about what is swept. */
  lemma PassedOver(w: World, names: seq<Name>, i: nat, down: set<Name>)
    requires i < |names| && (forall n :: n in names ==> n in w.files) && !Collects(w, names, i, down)
    ensures EarlierCollect(w, names, i + 1, down) == EarlierCollect(w, names, i, down)
  {
    hide EarlierCollect, StatusOf, Uncommitted;
    EarlierOfMore(w, names, i, down);
  }

  /** A collection commits what is staged, unless an earlier one did. */
  lemma SweptOnce(w: World, s: World, names: seq<Name>, i: nat, down: set<Name>, m: Name)
    requires i < |names| && (forall n :: n in names ==> n in w.files) && Collects(w, names, i, down)
    requires OnlySwept(w, s, names, i, down, m)
    ensures SweptVersions(w, names, i + 1, down, m)
            == if Staged(s, m) then [IndexOf(s, m)] + Versions(s, m) else Versions(s, m)
  {
    hide EarlierCollect, StatusOf, Versions;
    EarlierOfMore(w, names, i, down);
  }

  lemma OthersOfTurn(w: World, s: World, names: seq<Name>, i: nat, down: set<Name>, m: Name)
    requires i < |names| && (forall n :: n in names ==> n in w.files) && Collects(w, names, i, down)
    requires OnlySwept(w, s, names, i, down, names[i]) && OnlySwept(w, s, names, i, down, m) && m != names[i]
    ensures OnlySwept(w, Collected(s, names[i], w.remote[names[i]]), names, i + 1, down, m)
  {
    hide EarlierCollect, Versions, SweptVersions, Collected, IndexOf;
    TurnIff(w, s, names, i, down);
    CollectedEffect(s, names[i], w.remote[names[i]], m);
    SweptOnce(w, s, names, i, down, m);
  }

  lemma KeptOfTurn(w: World, s: World, names: seq<Name>, i: nat, down: set<Name>, k: nat)
    requires k < i < |names| && (forall n :: n in names ==> n in w.files) && Collects(w, names, i, down)
    requires names[k] != names[i] && StatusOf(w, names[k], down) == Collect
    requires OnlySwept(w, s, names, i, down, names[i]) && IsCollected(w, s, names, k, down)
    ensures IsCollected(w, Collected(s, names[i], w.remote[names[i]]), names, k, down)
  {
    hide EarlierCollect, SweptVersions, Collected, Collects;
    TurnIff(w, s, names, i, down);
    CollectedEffect(s, names[i], w.remote[names[i]], names[k]);
  }

  lemma NewOfTurn(w: World, s: World, names: seq<Name>, i: nat, down: set<Name>)
    requires i < |names| && (forall n :: n in names ==> n in w.files) && Collects(w, names, i, down)
    requires OnlySwept(w, s, names, i, down, names[i])
    ensures IsCollected(w, Collected(s, names[i], w.remote[names[i]]), names, i, down)
  {
    hide EarlierCollect, SweptVersions, Collected, Versions;
    TurnIff(w, s, names, i, down);
    CollectedEffect(s, names[i], w.remote[names[i]], names[i]);
  }

  lemma TreatedNext(w: World, s: World, names: seq<Name>, i: nat, down: set<Name>)
    requires Listing(names, w.files) && i < |names| && Treated(w, s, names, i, down)
    ensures Collects(w, names, i, down) ==> Treated(w, Collected(s, names[i], w.remote[names[i]]), names, i + 1, down)
    ensures !Collects(w, names, i, down) ==> Treated(w, s, names, i + 1, down)
  {
    hide EarlierCollect, Collected, OnlySwept, IsCollected, Uncommitted, Scanned, FullyStaged;
    assert OnlySwept(w, s, names, i, down, names[i]);
    if Collects(w, names, i, down) {
      var t := Collected(s, names[i], w.remote[names[i]]);
      TurnIff(w, s, names, i, down);
      CollectedKeepsRemote(s, names[i], w.remote[names[i]]);
      forall k | 0 <= k <= i && Collects(w, names, k, down) ensures IsCollected(w, t, names, k, down) {
        if k < i {
          KeptOfTurn(w, s, names, i, down, k);
        } else {
          NewOfTurn(w, s, names, i, down);
        }
      }
      forall m | m != names[i] && OnlySwept(w, s, names, i, down, m) ensures OnlySwept(w, t, names, i + 1, down, m) {
        OthersOfTurn(w, s, names, i, down, m);
      }
    } else {
      forall m | OnlySwept(w, s, names, i, down, m) ensures OnlySwept(w, s, names, i + 1, down, m) {
        StillOnlySwept(w, s, names, i, down, m);
      }
    }
  }

  lemma StillOnlySwept(w: World, s: World, names: seq<Name>, i: nat, down: set<Name>, m: Name)
    requires i < |names| && (forall n :: n in names ==> n in w.files) && !Collects(w, names, i, down)
    requires OnlySwept(w, s, names, i, down, m)
    ensures OnlySwept(w, s, names, i + 1, down, m)
  {
    hide EarlierCollect, Collects, Versions;
    PassedOver(w, names, i, down);
  }

  lemma SyncOneMore(w: World, names: seq<Name>, i: nat, down: set<Name>)
    requires i < |names| && forall n :: n in names ==> n in w.files
    ensures var s, n := SyncTo(w, names, i, down), names[i];
            SyncTo(w, names, i + 1, down)
            == if StatusOf(w, n, down) == Collect && !Uncommitted(s, n) then Collected(s, n, w.remote[n]) else s
  {
    hide Collected, Uncommitted, Scanned;
  }

  lemma TreatedOneMore(w: World, names: seq<Name>, i: nat, down: set<Name>)
    requires Listing(names, w.files) && i < |names| && (forall n :: n in names ==> n in w.files)
    requires Treated(w, SyncTo(w, names, i, down), names, i, down)
    ensures Treated(w, SyncTo(w, names, i + 1, down), names, i + 1, down)
  {
    hide *;
    TurnOfTreated(w, SyncTo(w, names, i, down), names, i, down);
    TreatedNext(w, SyncTo(w, names, i, down), names, i, down);
    SyncOneMore(w, names, i, down);
  }

  /** Sync file by file, with everything staged riding along in the first commit, said of the world before it. */
  lemma {:induction false} SyncIsTreated(w: World, names: seq<Name>, i: nat, down: set<Name>)
    requires Listing(names, w.files) && i <= |names| && (forall n :: n in names ==> n in w.files)
    ensures Treated(w, SyncTo(w, names, i, down), names, i, down)
  {
    hide *;
    if i == 0 {
      NothingTreated(w, names, down);
    } else {
      SyncIsTreated(w, names, i - 1, down);
      TreatedOneMore(w, names, i - 1, down);
    }
  }

  lemma NothingTreated(w: World, names: seq<Name>, down: set<Name>)
    requires forall n :: n in names ==> n in w.files
    ensures SyncTo(w, names, 0, down) == w && Treated(w, w, names, 0, down)
  {
    hide StatusOf, Uncommitted;
  }

  lemma TurnOfTreated(w: World, s: World, names: seq<Name>, k: nat, down: set<Name>)
    requires Listing(names, w.files) && k < |names| && Treated(w, s, names, k, down)
    requires s.files.Keys == w.files.Keys
    ensures StatusOf(w, names[k], down) == Collect && !Uncommitted(s, names[k]) <==> Collects(w, names, k, down)
    ensures OnlySwept(w, s, names, k, down, names[k])
  {
    hide Collects, StatusOf, OnlySwept, IsCollected;
    TurnIff(w, s, names, k, down);
  }

  // ----- Uncommitted edits ---------------------------------------------------

  /** When exactly a file is reported as a conflict and left alone. */
  lemma ConflictIff(w: World, names: seq<Name>, k: nat, down: set<Name>)
    requires Listing(names, w.files) && k < |names|
    ensures ConflictAt(w, names, k, down) <==>
              && StatusOf(w, names[k], down) == Collect && Uncommitted(w, names[k])
              && !(FullyStaged(w, names[k]) && EarlierCollect(w, names, k, down))
  {
    hide Treated, StatusOf, EarlierCollect, SyncTo, OnlySwept;
    SyncIsTreated(w, names, k, down);
    TurnOfTreated(w, SyncTo(w, names, k, down), names, k, down);
  }

  /** What a sync leaves of file `k`. */
  lemma AfterSync(w: World, names: seq<Name>, k: nat, down: set<Name>)
    requires Listing(names, w.files) && k < |names|
    ensures Sync(w, names, down).remote == w.remote
    ensures if Collects(w, names, k, down) then IsCollected(w, Sync(w, names, down), names, k, down)
            else OnlySwept(w, Sync(w, names, down), names, |names|, down, names[k])
  {
    hide StatusOf, EarlierCollect, SyncTo, OnlySwept, IsCollected, Collects;
    SyncIsTreated(w, names, |names|, down);
  }

  /**
    An uncommitted edit is overwritten exactly when it is staged as it stands in the file, production holds a text that
    git does not know, and a file before it is collected: that commit takes the whole index, so that the edit counts as
    committed when its own turn comes.
   */
  lemma OverwrittenIff(w: World, names: seq<Name>, k: nat, down: set<Name>)
    requires Listing(names, w.files) && k < |names| && Uncommitted(w, names[k])
    ensures Sync(w, names, down).files[names[k]] != w.files[names[k]] <==>
              StatusOf(w, names[k], down) == Collect && FullyStaged(w, names[k]) && EarlierCollect(w, names, k, down)
  {
    hide EarlierCollect, Sync, Scanned, FullyStaged, SweptVersions, Versions, IndexOf;
    AfterSync(w, names, k, down);
  }

  /** Every other edit is kept; and what is overwritten, edit or not, is by then a commit of the file. */
  lemma SyncKeepsEdits(w: World, names: seq<Name>, k: nat, down: set<Name>)
    requires Listing(names, w.files) && k < |names|
    ensures var s, n := Sync(w, names, down), names[k];
            && n in s.files
            && (!Collects(w, names, k, down) ==> s.files[n] == w.files[n] && IndexOf(s, n) == IndexOf(w, n))
            && (s.files[n] != w.files[n] ==> s.files[n] == w.remote[n] && Some(w.files[n]) in Versions(s, n))
  {
    hide EarlierCollect, Sync, Scanned;
    AfterSync(w, names, k, down);
    if Collects(w, names, k, down) {
      OverwrittenIsCommitted(w, names, k, down);
    }
  }

  lemma OverwrittenIsCommitted(w: World, names: seq<Name>, k: nat, down: set<Name>)
    requires Listing(names, w.files) && k < |names| && Collects(w, names, k, down)
    ensures Some(w.files[names[k]]) in SweptVersions(w, names, k, down, names[k])
  {
    hide EarlierCollect, StatusOf;
    var n := names[k];
    if Uncommitted(w, n) {
      assert SweptVersions(w, names, k, down, n)[0] == IndexOf(w, n);
    } else {
      assert Versions(w, n)[0] == Some(w.files[n]);
    }
  }

  /** A dry run commits nothing, so nothing is swept: it foretells the conflicts exactly when no staged edit is overwritten. */
  lemma DryRunForetellsIff(w: World, names: seq<Name>, down: set<Name>)
    requires Listing(names, w.files)
    ensures (forall k :: 0 <= k < |names| ==>
               (StatusOf(w, names[k], down) == Collect && Uncommitted(w, names[k]) <==> ConflictAt(w, names, k, down)))
            <==> forall k :: 0 <= k < |names| && Uncommitted(w, names[k]) ==>
                   Sync(w, names, down).files[names[k]] == w.files[names[k]]
  {
    hide Sync, StatusOf, Uncommitted, FullyStaged, EarlierCollect, ConflictAt, SyncTo;
    forall k | 0 <= k < |names|
      ensures (StatusOf(w, names[k], down) == Collect && Uncommitted(w, names[k]) <==> ConflictAt(w, names, k, down))
              <==> (Uncommitted(w, names[k]) ==> Sync(w, names, down).files[names[k]] == w.files[names[k]])
    {
      ForetoldIffKept(w, names, k, down);
    }
  }

  lemma ForetoldIffKept(w: World, names: seq<Name>, k: nat, down: set<Name>)
    requires Listing(names, w.files) && k < |names|
    ensures (StatusOf(w, names[k], down) == Collect && Uncommitted(w, names[k]) <==> ConflictAt(w, names, k, down))
            <==> (Uncommitted(w, names[k]) ==> Sync(w, names, down).files[names[k]] == w.files[names[k]])
  {
    hide Sync, StatusOf, Uncommitted, FullyStaged, EarlierCollect, ConflictAt, SyncTo;
    ConflictIff(w, names, k, down);
    if Uncommitted(w, names[k]) {
      OverwrittenIff(w, names, k, down);
    }
  }

  /** The commit of a collected file holds that file only, as the description has it, exactly when nothing else is staged. */
  lemma CommitHoldsOneFileIff(s: World, n: Name, text: Text)
    requires n in s.files && !Uncommitted(s, n) && s.files[n] != text
    ensures (forall m :: m != n ==> Versions(Collected(s, n, text), m) == Versions(s, m))
            <==> forall m :: m != n ==> !Staged(s, m)
  {
    hide Staged, Collected, Uncommitted, Versions, IndexOf;
    forall m | m != n
      ensures Versions(Collected(s, n, text), m)
              == if Staged(s, m) then [IndexOf(s, m)] + Versions(s, m) else Versions(s, m)
    {
      CollectedEffect(s, n, text, m);
    }
    forall m | m != n ensures Versions(Collected(s, n, text), m) == Versions(s, m) <==> !Staged(s, m) {
      assert |[IndexOf(s, m)] + Versions(s, m)| == 1 + |Versions(s, m)|;
    }
  }

  const STAGED_EDIT := World(
    map["a" := "a0", "b" := "b1"], map["a" := "a0", "b" := "b1"],
    map["a" := [Some("a0")], "b" := [Some("b0")]], map["a" := "ua", "b" := "ub"])

  /** Both were edited in the UI, and "b" has a staged edit: it is swept into the commit of "a" and overwritten without a word. */
  lemma StagedEditIsOverwritten()
    ensures var w, names := STAGED_EDIT, ["a", "b"];
            && Listing(names, w.files) && Uncommitted(w, "b")
            && Sync(w, names, {}).files["b"] == "ub" && !ConflictAt(w, names, 1, {})
  {
    var w, names := STAGED_EDIT, ["a", "b"];
    StagedEditFacts();
    hide Sync, SyncTo, StatusOf, Uncommitted, FullyStaged, Listing;
    assert EarlierCollect(w, names, 1, {}) by {
      assert names[0] == "a";
    }
    assert names[1] == "b";
    OverwrittenIff(w, names, 1, {});
    SyncKeepsEdits(w, names, 1, {});
    ConflictIff(w, names, 1, {});
  }

  lemma StagedEditFacts()
    ensures var w, names := STAGED_EDIT, ["a", "b"];
            && Listing(names, w.files) && w.remote["b"] == "ub"
            && StatusOf(w, "a", {}) == Collect && !Uncommitted(w, "a")
            && StatusOf(w, "b", {}) == Collect && Uncommitted(w, "b") && FullyStaged(w, "b")
  {
    var w := STAGED_EDIT;
    assert Versions(w, "a") == [Some("a0")] && Versions(w, "b") == [Some("b0")];
    assert Versions(w, "a")[1..] == [] && Versions(w, "b")[1..] == [];
  }

  // ----- deploy_prompts ------------------------------------------------------

  /** What the precheck objects to: content on Langfuse that git does not know. */
  predicate Mismatched(w: World, n: Name, down: set<Name>) {
    && n in w.files && n !in down && n in w.remote
    && w.files[n] != w.remote[n]
    && HeadOf(w, n) != Some(w.remote[n])
    && !Scanned(w, n, w.remote[n])
  }

  /** Production holds an older commit; publishing will replace it. */
  predicate Stale(w: World, n: Name, down: set<Name>) {
    && n in w.files && n !in down && n in w.remote
    && w.files[n] != w.remote[n]
    && HeadOf(w, n) != Some(w.remote[n])
    && Scanned(w, n, w.remote[n])
  }

  predicate Identical(w: World, n: Name, down: set<Name>) {
    n in w.files && n !in down && n in w.remote && w.files[n] == w.remote[n]
  }

  datatype Options = Options(exclude: set<Name>, force: bool)

  ghost predicate Unreachable(w: World, o: Options, down: set<Name>) {
    exists n :: n in w.files && n !in o.exclude && n in down
  }

  ghost predicate Blocked(w: World, o: Options, down: set<Name>) {
    Unreachable(w, o, down) || (!o.force && exists n :: n !in o.exclude && Mismatched(w, n, down))
  }

  predicate Publishes(w: World, n: Name, o: Options, down: set<Name>, fails: set<Name>) {
    n in w.files && n !in o.exclude && (o.force || !Identical(w, n, down)) && n !in fails
  }

  /** The publish loop as it has treated the names in `done`; `fails` are the names Langfuse refuses. */
  function PublishOn(w: World, done: set<Name>, o: Options, down: set<Name>, fails: set<Name>): World {
    w.(remote := map n | n in w.remote.Keys + w.files.Keys
                         && (n in w.remote || (n in done && Publishes(w, n, o, down, fails))) ::
         if n in done && Publishes(w, n, o, down, fails) then w.files[n] else w.remote[n])
  }

  ghost function Deploy(w: World, o: Options, down: set<Name>, fails: set<Name>): World {
    if Blocked(w, o, down) then w else PublishOn(w, w.files.Keys, o, down, fails)
  }

  lemma MismatchedIff(w: World, n: Name, down: set<Name>)
    ensures Mismatched(w, n, down) <==>
              n in w.files && n !in down && n in w.remote && w.files[n] != w.remote[n] && !Scanned(w, n, w.remote[n])
  {
    if n in w.remote && HeadOf(w, n) == Some(w.remote[n]) {
      HeadIsScanned(w, n, w.remote[n]);
    }
  }

  /**
    When exactly a deploy is held up: a prompt that is not excluded cannot be fetched, or, unless forced, production
    holds a text for it that differs from the file and is not among the newest 300 commits.
   */
  lemma BlockedIff(w: World, o: Options, down: set<Name>)
    ensures Blocked(w, o, down) <==>
              exists n :: n in w.files && n !in o.exclude
                && (n in down
                    || (!o.force && n in w.remote && w.remote[n] != w.files[n] && !AmongNewest(w, n, w.remote[n])))
  {
    hide Mismatched, AmongNewest;
    forall n ensures Mismatched(w, n, down) <==>
                       n in w.files && n !in down && n in w.remote && w.remote[n] != w.files[n]
                       && !AmongNewest(w, n, w.remote[n])
    {
      MismatchedIff(w, n, down);
      if n in w.remote {
        ScannedIff(w, n, w.remote[n]);
      }
    }
  }

  /** Production will fall back: it holds an older commit among the newest 300, which is not the newest one. */
  lemma StaleIff(w: World, n: Name, down: set<Name>)
    ensures Stale(w, n, down) <==>
              && n in w.files && n !in down && n in w.remote && w.remote[n] != w.files[n]
              && AmongNewest(w, n, w.remote[n]) && w.history[n][0] != Some(w.remote[n])
  {
    if n in w.remote {
      ScannedIff(w, n, w.remote[n]);
    }
  }

  /** What a deploy leaves in production: the local text of every prompt that is not excluded and not refused. */
  lemma DeployedAt(w: World, o: Options, down: set<Name>, fails: set<Name>, n: Name)
    ensures var d := Deploy(w, o, down, fails); var sent := !Blocked(w, o, down) && n in w.files && n !in o.exclude && n !in fails;
            && d.files == w.files && d.index == w.index && d.history == w.history
            && (n in d.remote <==> n in w.remote || sent)
            && (n in d.remote ==> d.remote[n] == if sent then w.files[n] else w.remote[n])
  {
    hide Blocked;
  }

  /** For a reachable prompt that differs, the precheck lets it pass exactly when sync refuses to collect it. */
  lemma OneDirectionOnly(w: World, n: Name, down: set<Name>)
    requires n in w.files && n in w.remote && n !in down && w.files[n] != w.remote[n]
    ensures !Mismatched(w, n, down) <==> StatusOf(w, n, down) == Rollback
    ensures Mismatched(w, n, down) <==> StatusOf(w, n, down) == Collect
  {
    hide Mismatched, Scanned;
    MismatchedIff(w, n, down);
  }

  // ----- Deploying after a sync ----------------------------------------------

  const PLAIN := Options({}, false)

  /** The sweep commits the very text that production holds: the conflict goes away. */
  ghost predicate SweptIn(w: World, names: seq<Name>, n: Name)
    requires (forall n :: n in names ==> n in w.files) && n in w.remote
  {
    EarlierCollect(w, names, |names|, {}) && Staged(w, n) && IndexOf(w, n) == Some(w.remote[n])
  }

  /** The sweep adds a commit, and the one that production holds was the last of the 300 scanned. */
  ghost predicate SweptOut(w: World, names: seq<Name>, n: Name)
    requires (forall n :: n in names ==> n in w.files) && n in w.remote
  {
    && EarlierCollect(w, names, |names|, {}) && Staged(w, n) && IndexOf(w, n) != Some(w.remote[n])
    && FirstMatch(Versions(w, n), w.remote[n], HISTORY_LIMIT) == Some(HISTORY_LIMIT - 1)
  }

  /** What holds up a deploy after the sync. */
  ghost predicate HoldsUp(w: World, names: seq<Name>, k: nat)
    requires k < |names| && forall n :: n in names ==> n in w.files
  {
    || (ConflictAt(w, names, k, {}) && !SweptIn(w, names, names[k]))
    || (StatusOf(w, names[k], {}) == Rollback && SweptOut(w, names, names[k]))
  }

  lemma ScannedAfterSweep(versions: Log, top: Option<Text>, text: Text)
    ensures FirstMatch([top] + versions, text, HISTORY_LIMIT).Some? <==>
              top == Some(text)
              || (FirstMatch(versions, text, HISTORY_LIMIT).Some?
                  && FirstMatch(versions, text, HISTORY_LIMIT) != Some(HISTORY_LIMIT - 1))
  {
    ShorterScan(versions, text, HISTORY_LIMIT);
    assert ([top] + versions)[1..] == versions;
    if FirstMatch(versions, text, HISTORY_LIMIT).Some? {
      MatchIsNewest(versions, text, HISTORY_LIMIT);
    }
  }

  lemma ScannedAfterSync(w: World, names: seq<Name>, k: nat)
    requires Listing(names, w.files) && k < |names| && names[k] in w.remote && !Collects(w, names, k, {})
    ensures var s, n := Sync(w, names, {}), names[k];
            Scanned(s, n, w.remote[n]) <==>
              SweptIn(w, names, n) || (Scanned(w, n, w.remote[n]) && !SweptOut(w, names, n))
  {
    hide FirstMatch, EarlierCollect, Sync, Collects, Versions, IndexOf, StatusOf;
    AfterSync(w, names, k, {});
    ScannedAfterSweep(Versions(w, names[k]), IndexOf(w, names[k]), w.remote[names[k]]);
  }

  lemma MismatchAfterSync(w: World, names: seq<Name>, k: nat)
    requires Listing(names, w.files) && k < |names|
    ensures Mismatched(Sync(w, names, {}), names[k], {}) <==> HoldsUp(w, names, k)
  {
    hide Mismatched, Sync, EarlierCollect, Scanned, SyncTo, ConflictAt, SweptVersions, Versions, FirstMatch;
    var n := names[k];
    MismatchedIff(Sync(w, names, {}), n, {});
    AfterSync(w, names, k, {});
    ConflictIff(w, names, k, {});
    if !Collects(w, names, k, {}) && n in w.remote {
      ScannedAfterSync(w, names, k);
    }
  }

  /**
    After a sync with everything reachable, a deploy is held up exactly by the conflicts sync reported whose text was
    not swept in, and by the rollbacks that were swept out of the scan.
   */
  lemma BlockedAfterSyncIff(w: World, names: seq<Name>)
    requires Listing(names, w.files)
    ensures Blocked(Sync(w, names, {}), PLAIN, {}) <==> exists k :: 0 <= k < |names| && HoldsUp(w, names, k)
  {
    var s := Sync(w, names, {});
    hide Sync, HoldsUp;
    forall k | 0 <= k < |names| ensures Mismatched(s, names[k], {}) <==> HoldsUp(w, names, k) {
      MismatchAfterSync(w, names, k);
    }
    SyncKeepsFiles(w, names);
    if n :| Mismatched(s, n, {}) {
      var k :| 0 <= k < |names| && names[k] == n;
      assert HoldsUp(w, names, k);
    }
    if k :| 0 <= k < |names| && HoldsUp(w, names, k) {
      assert Mismatched(s, names[k], {});
    }
  }

  lemma SyncKeepsFiles(w: World, names: seq<Name>)
    requires Listing(names, w.files)
    ensures forall n :: n in Sync(w, names, {}).files ==> n in names
  {
  }

  /** With nothing staged, those are the conflicts sync reported. */
  lemma BlockedByConflicts(w: World, names: seq<Name>)
    requires Listing(names, w.files) && forall n :: n in names ==> !Staged(w, n)
    ensures Blocked(Sync(w, names, {}), PLAIN, {}) <==> exists k :: 0 <= k < |names| && ConflictAt(w, names, k, {})
  {
    hide Sync, Blocked, ConflictAt, Staged;
    BlockedAfterSyncIff(w, names);
    forall k | 0 <= k < |names| ensures HoldsUp(w, names, k) <==> ConflictAt(w, names, k, {}) {
      HeldUpByConflict(w, names, k);
    }
  }

  lemma HeldUpByConflict(w: World, names: seq<Name>, k: nat)
    requires Listing(names, w.files) && k < |names| && !Staged(w, names[k])
    ensures HoldsUp(w, names, k) <==> ConflictAt(w, names, k, {})
  {
    hide EarlierCollect, Staged, SyncTo, FirstMatch;
  }

  // ----- Convergence ---------------------------------------------------------

  ghost predicate Clean(w: World) {
    forall n :: n in w.files ==> !Uncommitted(w, n)
  }

  /** Nothing differs and nothing is missing on Langfuse. */
  ghost predicate Converged(w: World) {
    forall n :: n in w.files ==> n in w.remote && w.remote[n] == w.files[n]
  }

  /** From a clean tree one sync and one full deploy make every prompt equal on both sides. */
  lemma SyncThenDeployConverges(w: World, names: seq<Name>)
    requires Listing(names, w.files) && Clean(w)
    ensures Converged(Deploy(Sync(w, names, {}), PLAIN, {}, {}))
  {
    var s := Sync(w, names, {});
    assert forall n :: n in names ==> !Staged(w, n);
    BlockedByConflicts(w, names);
    forall k | 0 <= k < |names| ensures !ConflictAt(w, names, k, {}) {
      ConflictIff(w, names, k, {});
    }
    hide Sync, Blocked, ConflictAt;
    PublishAllConverges(s);
  }

  lemma PublishAllConverges(s: World)
    ensures Converged(PublishOn(s, s.files.Keys, PLAIN, {}, {}))
    ensures PublishOn(s, s.files.Keys, PLAIN, {}, {}).files == s.files
  {
  }

  lemma {:induction false} NothingToCollect(w: World, names: seq<Name>, i: nat, down: set<Name>)
    requires Converged(w) && i <= |names| && forall n :: n in names ==> n in w.files
    ensures SyncTo(w, names, i, down) == w
  {
    if i > 0 {
      hide Collected, Uncommitted;
      NothingToCollect(w, names, i - 1, down);
    }
  }

  /** On converged replicas both scripts change nothing, whatever is staged: not even a version is published. */
  lemma ConvergedIsStable(w: World, names: seq<Name>)
    requires Listing(names, w.files) && Converged(w)
    ensures Sync(w, names, {}) == w
    ensures !Blocked(w, PLAIN, {}) && Deploy(w, PLAIN, {}, {}) == w
    ensures forall n :: !Publishes(w, n, PLAIN, {}, {})
  {
    hide SyncTo, Scanned;
    NothingToCollect(w, names, |names|, {});
    assert forall n :: n in w.files ==> Identical(w, n, {});
    var p := PublishOn(w, w.files.Keys, PLAIN, {}, {});
    assert p.remote == w.remote;
  }

  // ----- Runs ----------------------------------------------------------------

  /** Staging may put anything into the index, or take the file out of it. */
  datatype Event =
    | LocalEdit(name: Name, text: Text)
    | LocalDelete(name: Name)
    | Stage(name: Name, content: Option<Text>)
    | CommitIndex
    | UiEdit(name: Name, text: Text)
    | RunSync(names: seq<Name>, down: set<Name>)
    | RunDeploy(options: Options, down: set<Name>, fails: set<Name>)

  ghost function Step(w: World, e: Event): World {
    match e
    case LocalEdit(n, text) => w.(files := w.files[n := text])
    case LocalDelete(n) => w.(files := w.files - {n})
    case Stage(n, content) => w.(index := if content.Some? then w.index[n := content.value] else w.index - {n})
    case CommitIndex => Commit(w)
    case UiEdit(n, text) => w.(remote := w.remote[n := text])
    case RunSync(names, down) => if Listing(names, w.files) then Sync(w, names, down) else w
    case RunDeploy(o, down, fails) => Deploy(w, o, down, fails)
  }

  ghost function WorldAt(w: World, run: seq<Event>, i: nat): World
    requires i <= |run|
  {
    if i == 0 then w else Step(WorldAt(w, run, i - 1), run[i - 1])
  }

  predicate Unforced(e: Event) {
    e.RunDeploy? ==> !e.options.force
  }

  lemma {:induction false} SyncRemembers(w: World, names: seq<Name>, down: set<Name>, n: Name, v: Option<Text>)
    requires Listing(names, w.files) && v in Versions(w, n)
    ensures v in Versions(Sync(w, names, down), n)
  {
    hide SyncTo, EarlierCollect, Scanned, Versions, IndexOf, Uncommitted, FullyStaged;
    SyncIsTreated(w, names, |names|, down);
    if n in names {
      var k :| 0 <= k < |names| && names[k] == n;
      AfterSync(w, names, k, down);
    }
  }

  lemma HistoryRemembers(w: World, e: Event, n: Name, v: Option<Text>)
    requires v in Versions(w, n)
    ensures v in Versions(Step(w, e), n)
  {
    hide SyncTo, Deploy, Commit;
    if e.RunSync? && Listing(e.names, w.files) {
      SyncRemembers(w, e.names, e.down, n, v);
    } else if e.CommitIndex? {
      CommitVersions(w, n);
    } else if e.RunDeploy? {
      DeployKeepsHistory(w, e.options, e.down, e.fails, n);
    }
  }

  lemma SyncKeepsRemote(w: World, names: seq<Name>, down: set<Name>)
    requires Listing(names, w.files)
    ensures Sync(w, names, down).remote == w.remote
  {
    hide SyncTo, OnlySwept, IsCollected, Collects, StatusOf;
    SyncIsTreated(w, names, |names|, down);
  }

  lemma DeployedOver(w: World, o: Options, down: set<Name>, fails: set<Name>, n: Name)
    requires !o.force && n in w.remote
    ensures var d := Deploy(w, o, down, fails);
            n in d.remote && (d.remote[n] != w.remote[n] ==> Scanned(w, n, w.remote[n]))
  {
    hide Mismatched, Scanned;
    MismatchedIff(w, n, down);
  }

  /** Only a UI edit removes content from production that the scanned history does not hold. */
  lemma ReplacedIsScanned(w: World, e: Event, n: Name)
    requires Unforced(e) && n in w.remote
    ensures n in Step(w, e).remote
    ensures Step(w, e).remote[n] != w.remote[n] ==>
              Scanned(w, n, w.remote[n]) || (e.UiEdit? && e.name == n)
  {
    hide SyncTo, Blocked, PublishOn, Scanned;
    if e.RunDeploy? {
      DeployedOver(w, e.options, e.down, e.fails, n);
    } else if e.RunSync? && Listing(e.names, w.files) {
      SyncKeepsRemote(w, e.names, e.down);
    }
  }

  /** `text` was production content of `n` at some moment from `i` on and a UI edit then replaced it. */
  ghost predicate ReplacedByUi(w: World, run: seq<Event>, i: nat, j: nat, n: Name, text: Text)
    requires i <= j <= |run|
  {
    exists k :: i <= k < j && run[k].UiEdit? && run[k].name == n
                && n in WorldAt(w, run, k).remote && WorldAt(w, run, k).remote[n] == text
  }

  /**
    No loss over any run without forced deploys: what was once in production is still there,
    or is a committed version of the file, or was replaced by a UI edit.
   */
  lemma {:induction false} NothingIsLost(w: World, run: seq<Event>, i: nat, j: nat, n: Name)
    requires i <= j <= |run| && (forall k :: i <= k < j ==> Unforced(run[k]))
    requires n in WorldAt(w, run, i).remote
    ensures n in WorldAt(w, run, j).remote
    ensures var text := WorldAt(w, run, i).remote[n];
            || WorldAt(w, run, j).remote[n] == text
            || Some(text) in Versions(WorldAt(w, run, j), n)
            || ReplacedByUi(w, run, i, j, n, text)
    decreases j
  {
    if i < j {
      hide Step, Scanned, Versions;
      NothingIsLost(w, run, i, j - 1, n);
      var text := WorldAt(w, run, i).remote[n];
      var before := WorldAt(w, run, j - 1);
      ReplacedIsScanned(before, run[j - 1], n);
      if Scanned(before, n, text) {
        ScannedIsCommitted(before, n, text);
      }
      if Some(text) in Versions(before, n) {
        HistoryRemembers(before, run[j - 1], n, Some(text));
      }
    }
  }

  // ----- The edges -----------------------------------------------------------

  /**
    The description promises that any committed version counts as a rollback; the scan stops
    after 300. A clean file whose production content is an older version is collected: the
    stale text goes back into the working file.
   */
  lemma OldRollbackIsCollected(w: World, names: seq<Name>, k: nat, down: set<Name>)
    requires Listing(names, w.files) && k < |names| && !Uncommitted(w, names[k])
    requires names[k] in w.remote && names[k] !in down && w.files[names[k]] != w.remote[names[k]]
    ensures var n := names[k];
            Sync(w, names, down).files[n] == w.remote[n]
            <==> Some(w.remote[n]) !in Newest(Versions(w, n), HISTORY_LIMIT)
  {
    hide Sync, EarlierCollect, Uncommitted, Versions, Newest;
    AfterSync(w, names, k, down);
    MatchIff(Versions(w, names[k]), w.remote[names[k]], HISTORY_LIMIT);
  }

  /**
    A forced deploy destroys production content exactly when it goes ahead, reaches the prompt, and git never had
    the text it replaces with another.
   */
  lemma ForceDestroysIff(w: World, n: Name, exclude: set<Name>, down: set<Name>, fails: set<Name>)
    requires n in w.files && n in w.remote
    ensures var o := Options(exclude, true); var d := Deploy(w, o, down, fails);
            && n in d.remote
            && (d.remote[n] != w.remote[n] && Some(w.remote[n]) !in Versions(d, n) <==>
                  !Unreachable(w, o, down) && n !in exclude && n !in fails
                  && w.files[n] != w.remote[n] && Some(w.remote[n]) !in Versions(w, n))
  {
    hide Scanned, Unreachable, Versions;
    var o := Options(exclude, true);
    DeployKeepsHistory(w, o, down, fails, n);
  }

  lemma DeployKeepsHistory(w: World, o: Options, down: set<Name>, fails: set<Name>, n: Name)
    ensures Versions(Deploy(w, o, down, fails), n) == Versions(w, n)
  {
  }
}
