// Backup rotation on the remote target (backup/sbin/backups.py): reclaiming space oldest-first, and
// the renames that turn a finished copy into the latest snapshot.
module Backups {
  import opened Options

  /** The time suffix of a directory name; its fixed-width format sorts as the time does. */
  type Stamp = nat

  /** The directories `Backup_*` and `Latest_*` as `ls` lists them, and the unfinished `_Backup_*`. */
  datatype Remote = Remote(backups: seq<Stamp>, latest: seq<Stamp>, partial: set<Stamp>) {
    /** Every completed snapshot, in directory order. */
    function Retained(): seq<Stamp> {
      backups + latest
    }
  }

  /** One turn of the reclaiming loop: the free space read, whether `ls` works before the rm, whether
      the rm works, and whether `ls` works after it. */
  datatype Round = Round(free: int, listed: bool, rmWorks: bool, relisted: bool)

  /** What becomes of a command whose exit code is looked at.  Lost: it took effect, but the connection
      broke before its success was reported. */
  datatype Reply = Works | Fails | Lost

  /** Outcomes of the remote commands of one run.  `rounds` is the script of the reclaiming loop, which
      is still going when the script ends; `anyRsync` says there is something to copy, `transferred`
      that every rsync exited with 0, `latestListed` that the `ls` of `Latest_*` works.  Of commands whose
      exit code is ignored only the effect counts. */
  datatype Env = Env(size: int, rounds: seq<Round>, mkdirWorks: bool, mkdirAgain: Reply, permsSaved: bool, anyRsync: bool,
                     transferred: bool, latestListed: bool, mvLatest: Reply, mvPartial: Reply, mvBack: Reply, cleanWorks: bool)

  ghost predicate Ascending(l: seq<Stamp>) {
    forall i, j :: 0 <= i < j < |l| ==> l[i] < l[j]
  }

  function Insert(l: seq<Stamp>, t: Stamp): seq<Stamp> {
    if l == [] || t < l[0] then [t] + l else [l[0]] + Insert(l[1..], t)
  }

  function InsertNew(l: seq<Stamp>, t: Stamp): seq<Stamp> {
    if t in l then l else Insert(l, t)
  }

  function Without(l: seq<Stamp>, t: Stamp): seq<Stamp> {
    if l == [] then [] else if l[0] == t then l[1..] else [l[0]] + Without(l[1..], t)
  }

  // ---------------------------------------------------------------- reclaiming space

  /** deleteOldest deletes only when two `Backup_*` are listed, and otherwise reports failure.  After
      the rm it reports success unless a second listing still starts with the same name, so also when
      nothing was deleted and that listing fails. */
  function DeleteOldest(backups: seq<Stamp>, round: Round): (seq<Stamp>, bool) {
    if !round.listed || |backups| < 2 then (backups, false)
    else (if round.rmWorks then backups[1..] else backups, round.rmWorks || !round.relisted)
  }

  /** The loop of start, from its k-th reading of the free space: what is left, and the free space it
      ends with, None when it has not ended. */
  function Reclaim(backups: seq<Stamp>, env: Env, k: nat): (seq<Stamp>, Option<int>)
    decreases |env.rounds| - k
  {
    if k >= |env.rounds| then (backups, None)
    else if env.rounds[k].free >= env.size then (backups, Some(env.rounds[k].free))
    else
      var (rest, deleted) := DeleteOldest(backups, env.rounds[k]);
      if !deleted then (rest, Some(env.rounds[k].free)) else Reclaim(rest, env, k + 1)
  }

  /** Rounds from the k-th on in which neither the rm nor the listing after it works. */
  function Phantoms(rounds: seq<Round>, k: nat): nat
    decreases |rounds| - k
  {
    if k >= |rounds| then 0
    else (if !rounds[k].rmWorks && !rounds[k].relisted then 1 else 0) + Phantoms(rounds, k + 1)
  }

  /** Why the loop ends at its k-th reading: enough space, at most one backup left, or a failed delete. */
  predicate Ends(backups: seq<Stamp>, env: Env, k: nat)
    requires k < |env.rounds|
  {
    var r := env.rounds[k];
    r.free >= env.size || |backups| <= 1 || !r.listed || (!r.rmWorks && r.relisted)
  }

  /** The loop deletes strictly oldest-first and never the last `Backup_*`, `d` of them in `used` rounds.
      It ends with enough space, with at most one left or after a failed delete, and each round before
      that has deleted one, except those counted by Phantoms. */
  lemma {:induction false} ReclaimDropsOldest(backups: seq<Stamp>, env: Env, k: nat) returns (d: nat, used: nat)
    requires k <= |env.rounds|
    ensures d <= |backups| && Reclaim(backups, env, k).0 == backups[d..]
    ensures backups != [] ==> d < |backups|
    ensures d <= used <= d + Phantoms(env.rounds, k) && k + used <= |env.rounds|
    ensures Reclaim(backups, env, k).1 == if k + used < |env.rounds| then Some(env.rounds[k + used].free) else None
    ensures k + used < |env.rounds| ==> Ends(backups[d..], env, k + used)
    ensures forall i :: k <= i < k + used ==> env.rounds[i].free < env.size && env.rounds[i].listed
    decreases |env.rounds| - k
  {
    d, used := 0, 0;
    if k < |env.rounds| && !Ends(backups, env, k) {
      var rest := DeleteOldest(backups, env.rounds[k]).0;
      d, used := ReclaimDropsOldest(rest, env, k + 1);
      used := used + 1;
      if env.rounds[k].rmWorks { d := d + 1; }
    }
  }

  /** The loop is bounded by the number of backups as long as a failed rm is followed by a listing that
      works; with `p` exceptions it takes at most `p` more rounds. */
  lemma {:induction false} ReclaimEnds(backups: seq<Stamp>, env: Env)
    ensures |env.rounds| > |backups| + Phantoms(env.rounds, 0) ==> Reclaim(backups, env, 0).1.Some?
  {
    var d, used := ReclaimDropsOldest(backups, env, 0);
  }

  /** And no bound holds without that: it goes on as long as both fail. */
  lemma {:induction false} ReclaimMayGoOn(backups: seq<Stamp>, env: Env, k: nat)
    requires |backups| >= 2 && k <= |env.rounds|
    requires forall i :: k <= i < |env.rounds| ==> env.rounds[i] == Round(env.size - 1, true, false, false)
    ensures Reclaim(backups, env, k) == (backups, None)
    decreases |env.rounds| - k
  {
    if k < |env.rounds| { ReclaimMayGoOn(backups, env, k + 1); }
  }

  // ---------------------------------------------------------------- the renames

  /** `mv Latest_t Backup_t`, and whether success is reported; onto an existing directory it would move
      inside. */
  function Retire(r: Remote, t: Stamp, reply: Reply): (Remote, bool) {
    if reply == Fails || t !in r.latest then (r, false)
    else (Remote(InsertNew(r.backups, t), Without(r.latest, t), r.partial), reply == Works)
  }

  /** `mv Backup_t Latest_t`; its exit code only decides what is logged. */
  function Restore(r: Remote, t: Stamp, reply: Reply): Remote {
    if reply == Fails || t !in r.backups then r
    else Remote(Without(r.backups, t), InsertNew(r.latest, t), r.partial)
  }

  /** `mv _Backup_t Latest_t` */
  function Publish(r: Remote, t: Stamp, reply: Reply): (Remote, bool) {
    if reply == Fails || t !in r.partial then (r, false)
    else (Remote(r.backups, InsertNew(r.latest, t), r.partial - {t}), reply == Works)
  }

  /** getLatestTstamp: the first name listed, nothing when there is none or the listing fails. */
  function LatestStamp(r: Remote, listed: bool): Option<Stamp> {
    if !listed || r.latest == [] then None else Some(r.latest[0])
  }

  /** Once everything is copied: retire the old Latest, publish the new one, or roll back. */
  function Rotate(r: Remote, t: Stamp, env: Env): (Remote, bool) {
    match LatestStamp(r, env.latestListed)
    case None => Publish(r, t, env.mvPartial)
    case Some(prev) =>
      var (r1, retired) := Retire(r, prev, env.mvLatest);
      if !retired then (r1, false)
      else
        var (r2, reported) := Publish(r1, t, env.mvPartial);
        if reported then (r2, true) else (Restore(r2, prev, env.mvBack), false)
  }

  function Clean(r: Remote, works: bool): Remote {
    if works then r.(partial := {}) else r
  }

  function MakePartial(r: Remote, t: Stamp, works: bool): Remote {
    if works then r.(partial := r.partial + {t}) else r
  }

  /** The run gets as far as the renames: it ends with enough space, and everything is copied. */
  predicate Copies(r: Remote, env: Env) {
    var free := Reclaim(r.backups, env, 0).1;
    free.Some? && free.value >= env.size && env.permsSaved && env.mkdirAgain == Works && env.anyRsync && env.transferred
  }

  /** There is nothing to copy, which the run does not tell from having copied everything. */
  predicate Idles(r: Remote, env: Env) {
    var free := Reclaim(r.backups, env, 0).1;
    free.Some? && free.value >= env.size && env.permsSaved && env.mkdirAgain == Works && !env.anyRsync
  }

  /** A whole run; the flag says that it reports a successful backup. */
  function Start(r: Remote, t: Stamp, env: Env): (Remote, bool) {
    var r0 := MakePartial(r, t, env.mkdirWorks);
    var (backups, free) := Reclaim(r0.backups, env, 0);
    var r1 := r0.(backups := backups);
    if free == None || free.value < env.size || !env.permsSaved then (r1, false)
    else
      var r2 := MakePartial(r1, t, env.mkdirAgain != Fails);
      if env.mkdirAgain != Works then (r2, false)
      else if !env.anyRsync then (r2, true)
      else if !env.transferred then (Clean(r2, env.cleanWorks), false)
      else
        var (r3, reported) := Rotate(r2, t, env);
        (if reported then r3 else Clean(r3, env.cleanWorks), reported)
  }

  // ---------------------------------------------------------------- retention

  /** Every Backup is older than every Latest, and no snapshot is listed twice. */
  ghost predicate Tidy(r: Remote) {
    Ascending(r.Retained())
  }

  lemma {:induction false} InsertLast(l: seq<Stamp>, t: Stamp)
    requires forall i :: 0 <= i < |l| ==> l[i] < t
    ensures Insert(l, t) == l + [t]
  {
    if l != [] { InsertLast(l[1..], t); }
  }

  lemma {:induction false} WithoutLast(l: seq<Stamp>, t: Stamp)
    requires t !in l
    ensures Without(l + [t], t) == l
  {
    if l == [] {
      assert [] + [t] == [t];
    } else {
      assert (l + [t])[1..] == l[1..] + [t];
      WithoutLast(l[1..], t);
    }
  }

  lemma LatestApart(r: Remote)
    requires Tidy(r) && r.latest != []
    ensures forall i :: 0 <= i < |r.backups| ==> r.backups[i] < r.latest[0]
    ensures forall i :: 1 <= i < |r.latest| ==> r.latest[0] < r.latest[i]
  {
    var all, n := r.Retained(), |r.backups|;
    assert all[n] == r.latest[0];
    assert forall i :: 0 <= i < n ==> all[i] == r.backups[i];
    assert forall i :: 1 <= i < |r.latest| ==> all[n + i] == r.latest[i];
  }

  /** The remote once the oldest Latest is a Backup. */
  function Retired(r: Remote): Remote
    requires r.latest != []
  {
    r.(backups := r.backups + [r.latest[0]], latest := r.latest[1..])
  }

  lemma RetireKeeps(r: Remote, reply: Reply)
    requires Tidy(r) && r.latest != []
    ensures Retire(r, r.latest[0], reply) == if reply == Fails then (r, false) else (Retired(r), reply == Works)
    ensures Retired(r).Retained() == r.Retained()
  {
    LatestApart(r);
    InsertLast(r.backups, r.latest[0]);
  }

  /** Moving the newest Backup back to the front of newer Latest ones. */
  lemma RestoreFirst(backups: seq<Stamp>, prev: Stamp, latest: seq<Stamp>, partial: set<Stamp>, reply: Reply)
    requires prev !in backups && forall i :: 0 <= i < |latest| ==> prev < latest[i]
    ensures Restore(Remote(backups + [prev], latest, partial), prev, reply)
            == if reply == Fails then Remote(backups + [prev], latest, partial) else Remote(backups, [prev] + latest, partial)
  {
    WithoutLast(backups, prev);
  }

  lemma PublishAppends(r: Remote, t: Stamp, reply: Reply)
    requires forall s :: s in r.latest ==> s < t
    ensures Publish(r, t, reply)
            == if reply != Fails && t in r.partial
               then (Remote(r.backups, r.latest + [t], r.partial - {t}), reply == Works) else (r, false)
  {
    assert forall i :: 0 <= i < |r.latest| ==> r.latest[i] in r.latest;
    InsertLast(r.latest, t);
  }

  /** Rotation when a Latest is seen, according to what becomes of the renames. */
  lemma RotateOverLatest(r: Remote, t: Stamp, env: Env)
    requires Tidy(r) && r.latest != [] && env.latestListed && forall s :: s in r.latest ==> s < t
    ensures Rotate(r, t, env)
            == if env.mvLatest == Fails then (r, false)
               else if env.mvLatest == Lost then (Retired(r), false)
               else if env.mvPartial == Fails || t !in r.partial then (if env.mvBack == Fails then Retired(r) else r, false)
               else if env.mvPartial == Works || env.mvBack == Fails
               then (Remote(r.backups + [r.latest[0]], r.latest[1..] + [t], r.partial - {t}), env.mvPartial == Works)
               else (Remote(r.backups, r.latest + [t], r.partial - {t}), false)
  {
    RetireKeeps(r, env.mvLatest);
    AfterRetiring(r, t, env);
  }

  /** The second half: the new snapshot is moved in place, or the old one back. */
  lemma AfterRetiring(r: Remote, t: Stamp, env: Env)
    requires Tidy(r) && r.latest != [] && forall s :: s in r.latest ==> s < t
    ensures var (r2, reported) := Publish(Retired(r), t, env.mvPartial);
            && reported == (env.mvPartial == Works && t in r.partial)
            && r2 == (if env.mvPartial == Fails || t !in r.partial then Retired(r)
                      else Remote(r.backups + [r.latest[0]], r.latest[1..] + [t], r.partial - {t}))
            && Restore(r2, r.latest[0], env.mvBack)
               == if env.mvBack == Fails then r2
                  else if env.mvPartial == Fails || t !in r.partial then r
                  else Remote(r.backups, r.latest + [t], r.partial - {t})
  {
    assert forall s :: s in r.latest[1..] ==> s in r.latest;
    PublishAppends(Retired(r), t, env.mvPartial);
    RestoreRetired(r, [], r.partial, env.mvBack);
    RestoreRetired(r, [t], r.partial - {t}, env.mvBack);
    assert r.latest[1..] + [] == r.latest[1..] && r.latest + [] == r.latest;
  }

  lemma RestoreRetired(r: Remote, more: seq<Stamp>, partial: set<Stamp>, reply: Reply)
    requires Tidy(r) && r.latest != [] && forall s, m :: s in r.latest && m in more ==> s < m
    ensures var r1 := Remote(r.backups + [r.latest[0]], r.latest[1..] + more, partial);
            Restore(r1, r.latest[0], reply) == if reply == Fails then r1 else Remote(r.backups, r.latest + more, partial)
  {
    var prev, rest := r.latest[0], r.latest[1..] + more;
    LatestApart(r);
    assert prev in r.latest;
    forall i | 0 <= i < |rest|
      ensures prev < rest[i]
    {
      if i < |r.latest| - 1 { assert rest[i] == r.latest[i + 1]; } else { assert rest[i] in more; }
    }
    RestoreFirst(r.backups, prev, rest, partial, reply);
    assert [prev] + rest == r.latest + more;
  }

  /** Rotation when no Latest is seen, because there is none or because the listing fails. */
  lemma RotateBlindly(r: Remote, t: Stamp, env: Env)
    requires (r.latest == [] || !env.latestListed) && forall s :: s in r.latest ==> s < t
    ensures Rotate(r, t, env)
            == if env.mvPartial != Fails && t in r.partial
               then (Remote(r.backups, r.latest + [t], r.partial - {t}), env.mvPartial == Works) else (r, false)
  {
    PublishAppends(r, t, env.mvPartial);
  }

  /** The rename that puts the new snapshot in place is reached and takes effect. */
  predicate Placed(r: Remote, env: Env) {
    (r.latest == [] || !env.latestListed || env.mvLatest == Works) && env.mvPartial != Fails
  }

  /** The old Latest stays, or comes back, beside the new one: it was not listed, or the success of the
      new one's rename was lost and the rollback moved the old one back. */
  predicate Doubled(r: Remote, env: Env) {
    r.latest != [] && Placed(r, env) && (!env.latestListed || (env.mvPartial == Lost && env.mvBack != Fails))
  }

  /** Whatever fails or goes unreported, rotation keeps every completed snapshot exactly once, in order,
      and adds the new one exactly when its rename took effect, which it reports unless the reply was
      lost.  A second Latest appears exactly in the two cases of Doubled. */
  lemma RotateKeeps(r: Remote, t: Stamp, env: Env)
    requires Tidy(r) && t in r.partial && forall s :: s in r.Retained() ==> s < t
    ensures var (r', reported) := Rotate(r, t, env);
            && r'.Retained() == (if Placed(r, env) then r.Retained() + [t] else r.Retained())
            && (Placed(r, env) ==> r'.latest != []) && Tidy(r')
            && (reported <==> Placed(r, env) && env.mvPartial == Works)
    ensures |r.latest| <= 1 ==> (|Rotate(r, t, env).0.latest| <= 1 <==> !Doubled(r, env))
  {
    AscendingSnoc(r.Retained(), t);
    assert forall s :: s in r.latest ==> s in r.Retained();
    if r.latest == [] || !env.latestListed {
      RotateBlindly(r, t, env);
      assert r.backups + (r.latest + [t]) == r.Retained() + [t];
    } else {
      RotateOverLatest(r, t, env);
      assert r.backups + (r.latest + [t]) == r.Retained() + [t];
      assert r.backups + [r.latest[0]] + r.latest[1..] == r.Retained();
      assert r.backups + [r.latest[0]] + (r.latest[1..] + [t]) == r.Retained() + [t];
    }
  }

  lemma AscendingSnoc(l: seq<Stamp>, t: Stamp)
    requires Ascending(l) && forall s :: s in l ==> s < t
    ensures Ascending(l + [t])
  {
    assert forall i :: 0 <= i < |l| ==> l[i] in l;
  }

  lemma AscendingSuffix(l: seq<Stamp>, d: nat)
    requires Ascending(l) && d <= |l|
    ensures Ascending(l[d..]) && forall s :: s in l[d..] ==> s in l
  {
    var m := l[d..];
    forall i, j | 0 <= i < j < |m|
      ensures m[i] < m[j]
    {
      assert m[i] == l[d + i] && m[j] == l[d + j];
    }
  }

  /** The run puts its snapshot in place. */
  predicate Completes(r: Remote, env: Env) {
    Copies(r, env) && Placed(r, env)
  }

  /** One run: some of the oldest backups may be reclaimed, never the newest snapshot, and otherwise
      nothing is lost or duplicated.  Success is reported exactly for a snapshot put in place by a rename
      whose reply arrives and when there is nothing to copy, and there is still at most one Latest unless
      the run doubled it. */
  lemma StartKeeps(r: Remote, t: Stamp, env: Env) returns (d: nat)
    requires Tidy(r) && forall s :: s in r.Retained() ==> s < t
    ensures d <= |r.Retained()| && (r.Retained() != [] ==> d < |r.Retained()|)
    ensures var (r', reported) := Start(r, t, env);
            && r'.Retained() == (if Completes(r, env) then r.Retained()[d..] + [t] else r.Retained()[d..])
            && (Completes(r, env) ==> r'.latest != [])
            && Tidy(r')
            && (reported <==> (Completes(r, env) && env.mvPartial == Works) || Idles(r, env))
    ensures |r.latest| <= 1 ==> (|Start(r, t, env).0.latest| <= 1 <==> !(Copies(r, env) && Doubled(r, env)))
  {
    var used;
    d, used := ReclaimDropsOldest(r.backups, env, 0);
    assert r.backups[d..] + r.latest == r.Retained()[d..];
    AscendingSuffix(r.Retained(), d);
    if Copies(r, env) {
      var r2 := StartCopied(r, t, env);
      RotateKeeps(r2, t, env);
    } else {
      StartCutShort(r, t, env);
    }
  }

  lemma {:induction false} StartCutShort(r: Remote, t: Stamp, env: Env)
    requires !Copies(r, env)
    ensures Start(r, t, env).1 <==> Idles(r, env)
    ensures Start(r, t, env).0.backups == Reclaim(r.backups, env, 0).0 && Start(r, t, env).0.latest == r.latest
  {
  }

  /** The state in which the renames start. */
  lemma {:induction false} StartCopied(r: Remote, t: Stamp, env: Env) returns (r2: Remote)
    requires Copies(r, env)
    ensures r2.backups == Reclaim(r.backups, env, 0).0 && r2.latest == r.latest && t in r2.partial
    ensures Start(r, t, env).1 == Rotate(r2, t, env).1
    ensures Start(r, t, env).0.backups == Rotate(r2, t, env).0.backups
    ensures Start(r, t, env).0.latest == Rotate(r2, t, env).0.latest
  {
    r2 := MakePartial(MakePartial(r, t, env.mkdirWorks).(backups := Reclaim(r.backups, env, 0).0), t, true);
  }

  /** When a run adds its snapshot, in terms of its commands alone: enough space, everything prepared and
      copied, the old Latest retired if one is listed, and the last rename not failing. */
  lemma {:induction false} AddedExactly(r: Remote, t: Stamp, env: Env)
    requires Tidy(r) && forall s :: s in r.Retained() ==> s < t
    ensures t in Start(r, t, env).0.Retained()
            <==> && (var free := Reclaim(r.backups, env, 0).1; free.Some? && free.value >= env.size)
                 && env.permsSaved && env.mkdirAgain == Works && env.anyRsync && env.transferred
                 && (r.latest != [] && env.latestListed ==> env.mvLatest == Works)
                 && (env.mvPartial == Works || env.mvPartial == Lost)
  {
    var d := StartKeeps(r, t, env);
    assert forall s :: s in r.Retained()[d..] ==> s in r.Retained();
  }

  /** What a run leaves in the partial directory: everything when it ends before copying, nothing when it
      fails later and cleaning works, and its own snapshot unless the last rename took it away. */
  lemma {:induction false} PartialLeft(r: Remote, t: Stamp, env: Env)
    ensures var (r', reported), free := Start(r, t, env), Reclaim(r.backups, env, 0).1;
            && (free == None || free.value < env.size || !env.permsSaved ==>
                  r'.partial == if env.mkdirWorks then r.partial + {t} else r.partial)
            && (free.Some? && free.value >= env.size && env.permsSaved && (env.mkdirAgain != Works || !env.anyRsync) ==>
                  r'.partial == if env.mkdirWorks || env.mkdirAgain != Fails then r.partial + {t} else r.partial)
            && (Copies(r, env) && reported ==> r'.partial == r.partial - {t})
            && (Tries(r, env) && !reported && env.cleanWorks ==> r'.partial == {})
            && (Tries(r, env) && !reported && !env.cleanWorks ==>
                  r'.partial == if Copies(r, env) && Placed(r, env) then r.partial - {t} else r.partial + {t})
  {
  }

  /** The run gets as far as copying something. */
  predicate Tries(r: Remote, env: Env) {
    var free := Reclaim(r.backups, env, 0).1;
    free.Some? && free.value >= env.size && env.permsSaved && env.mkdirAgain == Works && env.anyRsync
  }

  /** A history: the stamps of the snapshots completed so far, oldest first.  What is retained is the newest part of it,
      and a Latest, if there is one, ends with the newest of all. */
  ghost predicate Keeps(r: Remote, completed: seq<Stamp>) {
    && Ascending(completed) && Tidy(r)
    && |r.Retained()| <= |completed|
    && r.Retained() == completed[|completed| - |r.Retained()|..]
    && (completed != [] ==> r.Retained() != [])
    && (r.latest != [] ==> completed != [] && r.latest[|r.latest| - 1] == completed[|completed| - 1])
  }

  datatype Attempt = Attempt(stamp: Stamp, env: Env)

  /** The remote after a history of runs, the snapshots they completed, and those they reported. */
  datatype History = History(remote: Remote, completed: seq<Stamp>, reported: seq<Stamp>)

  function RunAll(r: Remote, attempts: seq<Attempt>): History {
    if attempts == [] then History(r, [], [])
    else
      var n := |attempts| - 1;
      var h, a := RunAll(r, attempts[..n]), attempts[n];
      var (r', ok) := Start(h.remote, a.stamp, a.env);
      History(r', if Completes(h.remote, a.env) then h.completed + [a.stamp] else h.completed,
              if ok then h.reported + [a.stamp] else h.reported)
  }

  lemma {:induction false} CompletedStamps(r: Remote, attempts: seq<Attempt>)
    ensures forall s :: s in RunAll(r, attempts).completed || s in RunAll(r, attempts).reported ==>
              exists i :: 0 <= i < |attempts| && attempts[i].stamp == s
  {
    if attempts != [] {
      var n := |attempts| - 1;
      CompletedStamps(r, attempts[..n]);
      forall s | s in RunAll(r, attempts[..n]).completed || s in RunAll(r, attempts[..n]).reported
        ensures exists i :: 0 <= i < |attempts| && attempts[i].stamp == s
      {
        var i :| 0 <= i < n && attempts[..n][i].stamp == s;
        assert attempts[i].stamp == s;
      }
    }
  }

  ghost predicate Increasing(attempts: seq<Attempt>) {
    forall i, j :: 0 <= i < j < |attempts| ==> attempts[i].stamp < attempts[j].stamp
  }

  /** Retention over whole runs: with increasing stamps and any commands failing or going unreported,
      listings included, what is kept is always a suffix of the completed backups, the newest one is
      always among it, and nothing is lost or duplicated by a rename. */
  lemma {:induction false} RetentionOverRuns(partial: set<Stamp>, attempts: seq<Attempt>)
    requires Increasing(attempts)
    ensures var h := RunAll(Remote([], [], partial), attempts);
            Keeps(h.remote, h.completed)
  {
    var init := Remote([], [], partial);
    if attempts != [] {
      var n := |attempts| - 1;
      RetentionOverRuns(partial, attempts[..n]);
      var h := RunAll(init, attempts[..n]);
      NewerThanCompleted(init, attempts, n);
      KeepsStep(h.remote, h.completed, attempts[n].stamp, attempts[n].env);
    }
  }

  lemma {:induction false} NewerThanCompleted(r: Remote, attempts: seq<Attempt>, n: nat)
    requires Increasing(attempts) && n < |attempts|
    ensures forall s :: s in RunAll(r, attempts[..n]).completed ==> s < attempts[n].stamp
  {
    CompletedStamps(r, attempts[..n]);
    forall s | s in RunAll(r, attempts[..n]).completed
      ensures s < attempts[n].stamp
    {
      var i :| 0 <= i < n && attempts[..n][i].stamp == s;
      assert attempts[i].stamp == s;
    }
  }

  lemma KeepsStep(r: Remote, completed: seq<Stamp>, t: Stamp, env: Env)
    requires Keeps(r, completed) && forall s :: s in completed ==> s < t
    ensures Keeps(Start(r, t, env).0, if Completes(r, env) then completed + [t] else completed)
  {
    RetainedCompleted(r, completed);
    var d := StartKeeps(r, t, env);
    var r' := Start(r, t, env).0;
    if Completes(r, env) { KeepsAdded(r, completed, r', d, t); } else { KeepsSame(r, completed, r', d); }
  }

  lemma RetainedCompleted(r: Remote, completed: seq<Stamp>)
    requires Keeps(r, completed)
    ensures forall s :: s in r.Retained() ==> s in completed
  {
  }

  lemma KeepsSame(r: Remote, completed: seq<Stamp>, r': Remote, d: nat)
    requires Keeps(r, completed) && Tidy(r')
    requires d <= |r.Retained()| && (r.Retained() != [] ==> d < |r.Retained()|)
    requires r'.Retained() == r.Retained()[d..]
    ensures Keeps(r', completed)
  {
    KeepsFrom(r', completed, |completed| - |r.Retained()| + d);
  }

  lemma KeepsAdded(r: Remote, completed: seq<Stamp>, r': Remote, d: nat, t: Stamp)
    requires Keeps(r, completed) && Tidy(r') && d <= |r.Retained()| && forall s :: s in completed ==> s < t
    requires r'.Retained() == r.Retained()[d..] + [t]
    ensures Keeps(r', completed + [t])
  {
    AscendingSnoc(completed, t);
    SuffixSteps(completed, r.Retained(), d, [t]);
    KeepsFrom(r', completed + [t], |completed| - |r.Retained()| + d);
  }

  lemma KeepsFrom(r: Remote, completed: seq<Stamp>, drop: nat)
    requires Tidy(r) && Ascending(completed) && drop <= |completed|
    requires r.Retained() == completed[drop..] && (completed != [] ==> drop < |completed|)
    ensures Keeps(r, completed)
  {
    if r.latest != [] {
      assert r.Retained()[|r.Retained()| - 1] == r.latest[|r.latest| - 1];
    }
  }

  lemma SuffixSteps(all: seq<Stamp>, kept: seq<Stamp>, d: nat, more: seq<Stamp>)
    requires |kept| <= |all| && kept == all[|all| - |kept|..] && d <= |kept|
    ensures kept[d..] + more == (all + more)[|all| - |kept| + d..]
  {
  }

  // ---------------------------------------------------------------- what the replies decide

  function Reached(partial: set<Stamp>, attempts: seq<Attempt>, n: nat): Remote
    requires n <= |attempts|
  {
    RunAll(Remote([], [], partial), attempts[..n]).remote
  }

  /** The n-th run reports a failure because the reply to the rename that completes its snapshot is lost,
      or a success with nothing to copy. */
  predicate Misreported(partial: set<Stamp>, attempts: seq<Attempt>, n: nat)
    requires n < |attempts|
  {
    var r, env := Reached(partial, attempts, n), attempts[n].env;
    (Completes(r, env) && env.mvPartial == Lost) || Idles(r, env)
  }

  ghost predicate AllTrue(partial: set<Stamp>, attempts: seq<Attempt>) {
    forall n: nat :: n < |attempts| ==> !Misreported(partial, attempts, n)
  }

  /** The snapshots reported as successful are the completed ones if and only if no run misreports. */
  lemma {:induction false} ReportedExactly(partial: set<Stamp>, attempts: seq<Attempt>)
    requires Increasing(attempts)
    ensures var h := RunAll(Remote([], [], partial), attempts);
            h.reported == h.completed <==> AllTrue(partial, attempts)
  {
    if attempts != [] {
      var n := |attempts| - 1;
      ReportedExactly(partial, attempts[..n]);
      AllTrueStep(partial, attempts, n);
      var h, h' := LastRun(partial, attempts, n);
      LastReported(h.completed, h.reported, attempts[n].stamp);
    }
  }

  lemma {:induction false} AllTrueStep(partial: set<Stamp>, attempts: seq<Attempt>, n: nat)
    requires |attempts| == n + 1
    ensures AllTrue(partial, attempts) <==> AllTrue(partial, attempts[..n]) && !Misreported(partial, attempts, n)
  {
    var before := attempts[..n];
    forall k: nat | k < n
      ensures Misreported(partial, attempts, k) <==> Misreported(partial, before, k)
    {
      assert before[..k] == attempts[..k] && before[k] == attempts[k];
    }
  }

  /** What the last run adds to the history. */
  lemma {:induction false} LastRun(partial: set<Stamp>, attempts: seq<Attempt>, n: nat) returns (h: History, h': History)
    requires Increasing(attempts) && |attempts| == n + 1
    ensures h == RunAll(Remote([], [], partial), attempts[..n]) && h' == RunAll(Remote([], [], partial), attempts)
    ensures var t, done := attempts[n].stamp, Completes(h.remote, attempts[n].env);
            && (forall s :: s in h.completed || s in h.reported ==> s < t)
            && h'.completed == (if done then h.completed + [t] else h.completed)
            && h'.reported == (if done != Misreported(partial, attempts, n) then h.reported + [t] else h.reported)
  {
    h, h' := RunAll(Remote([], [], partial), attempts[..n]), RunAll(Remote([], [], partial), attempts);
    AttemptReports(partial, attempts, n);
    CompletedStamps(Remote([], [], partial), attempts[..n]);
  }

  /** When a run of the history reports success. */
  lemma {:induction false} AttemptReports(partial: set<Stamp>, attempts: seq<Attempt>, n: nat)
    requires Increasing(attempts) && n < |attempts|
    ensures var r, a := Reached(partial, attempts, n), attempts[n];
            Start(r, a.stamp, a.env).1 <==> (Completes(r, a.env) && a.env.mvPartial == Works) || Idles(r, a.env)
  {
    RetentionOverRuns(partial, attempts[..n]);
    NewerThanCompleted(Remote([], [], partial), attempts, n);
    var h := RunAll(Remote([], [], partial), attempts[..n]);
    RunReports(h.remote, h.completed, attempts[n].stamp, attempts[n].env);
  }

  lemma RunReports(r: Remote, completed: seq<Stamp>, t: Stamp, env: Env)
    requires Keeps(r, completed) && forall s :: s in completed ==> s < t
    ensures Start(r, t, env).1 <==> (Completes(r, env) && env.mvPartial == Works) || Idles(r, env)
  {
    RetainedCompleted(r, completed);
    var d := StartKeeps(r, t, env);
  }

  lemma LastReported(completed: seq<Stamp>, reported: seq<Stamp>, t: Stamp)
    requires forall s :: s in completed || s in reported ==> s < t
    ensures completed + [t] == reported + [t] <==> completed == reported
    ensures completed + [t] != reported && completed != reported + [t]
  {
    if completed + [t] == reported + [t] {
      assert completed == (completed + [t])[..|completed|] && reported == (reported + [t])[..|reported|];
    }
    assert t in completed + [t] && t in reported + [t] && t !in completed && t !in reported;
  }

  /** Over a whole history there is never more than one Latest if and only if no run doubles it. */
  lemma {:induction false} AtMostOneLatest(partial: set<Stamp>, attempts: seq<Attempt>)
    requires Increasing(attempts)
    ensures (forall n: nat :: n <= |attempts| ==> |Reached(partial, attempts, n).latest| <= 1)
            <==> forall n: nat :: n < |attempts| ==> !Doubles(partial, attempts, n)
  {
    if forall n: nat :: n < |attempts| ==> !Doubles(partial, attempts, n) {
      forall n: nat | n <= |attempts|
        ensures |Reached(partial, attempts, n).latest| <= 1
      {
        OneLatestSoFar(partial, attempts, n);
      }
    }
    if forall n: nat :: n <= |attempts| ==> |Reached(partial, attempts, n).latest| <= 1 {
      forall n: nat | n < |attempts|
        ensures !Doubles(partial, attempts, n)
      {
        assert |Reached(partial, attempts, n).latest| <= 1 && |Reached(partial, attempts, n + 1).latest| <= 1;
        NextAttempt(partial, attempts, n);
      }
    }
  }

  predicate Doubles(partial: set<Stamp>, attempts: seq<Attempt>, n: nat)
    requires n < |attempts|
  {
    var r, env := Reached(partial, attempts, n), attempts[n].env;
    Copies(r, env) && Doubled(r, env)
  }

  lemma {:induction false} OneLatestSoFar(partial: set<Stamp>, attempts: seq<Attempt>, n: nat)
    requires Increasing(attempts) && n <= |attempts| && forall k: nat :: k < n ==> !Doubles(partial, attempts, k)
    ensures |Reached(partial, attempts, n).latest| <= 1
    decreases n
  {
    if n > 0 {
      OneLatestSoFar(partial, attempts, n - 1);
      NextAttempt(partial, attempts, n - 1);
    }
  }

  lemma {:induction false} NextAttempt(partial: set<Stamp>, attempts: seq<Attempt>, n: nat)
    requires Increasing(attempts) && n < |attempts| && |Reached(partial, attempts, n).latest| <= 1
    ensures |Reached(partial, attempts, n + 1).latest| <= 1 <==> !Doubles(partial, attempts, n)
  {
    var init := Remote([], [], partial);
    var h := RunAll(init, attempts[..n]);
    RetentionOverRuns(partial, attempts[..n]);
    NewerThanCompleted(init, attempts, n);
    RunDoubles(h.remote, h.completed, attempts[n].stamp, attempts[n].env);
    ReachedNext(partial, attempts, n);
  }

  lemma {:induction false} ReachedNext(partial: set<Stamp>, attempts: seq<Attempt>, n: nat)
    requires n < |attempts|
    ensures Reached(partial, attempts, n + 1) == Start(Reached(partial, attempts, n), attempts[n].stamp, attempts[n].env).0
  {
    assert attempts[..n + 1][..n] == attempts[..n];
  }

  lemma RunDoubles(r: Remote, completed: seq<Stamp>, t: Stamp, env: Env)
    requires Keeps(r, completed) && |r.latest| <= 1 && forall s :: s in completed ==> s < t
    ensures |Start(r, t, env).0.latest| <= 1 <==> !(Copies(r, env) && Doubled(r, env))
  {
    RetainedCompleted(r, completed);
    var d := StartKeeps(r, t, env);
  }

  const ALL_WORKS := Env(1, [Round(1, true, true, true)], true, Works, true, true, true, true, Works, Works, Works, true)

  /** Two ways to two Latest, when everything else works: the second run cannot list the first Latest ... */
  lemma UnlistedLatest()
    ensures Start(Remote([], [1], {}), 2, ALL_WORKS.(latestListed := false)) == (Remote([], [1, 2], {}), true)
  {
    RotateBlindly(Remote([], [1], {2}), 2, ALL_WORKS.(latestListed := false));
    assert [1] + [2] == [1, 2] && {2} - {2} == {};
  }

  /** ... or does not hear that its own snapshot was put in place. */
  lemma UnheardLatest()
    ensures Start(Remote([], [1], {}), 2, ALL_WORKS.(mvPartial := Lost)) == (Remote([], [1, 2], {}), false)
  {
    RotateOverLatest(Remote([], [1], {2}), 2, ALL_WORKS.(mvPartial := Lost));
    assert [1] + [2] == [1, 2] && {2} - {2} == {};
  }

  // ---------------------------------------------------------------- the code

  /** The backup target as the manager changes it, one remote command at a time. */
  class Target {
    var remote: Remote

    constructor (remote: Remote)
      ensures this.remote == remote
    {
      this.remote := remote;
    }

    /** getBackups: the names `ls` prints, split at the line ends, so with one empty name at the end;
        nothing but the empty name when the listing fails. */
    method GetBackups(listed: bool) returns (names: seq<Option<Stamp>>)
      ensures listed ==> |names| == |remote.backups| + 1 && names[|remote.backups|] == None
      ensures listed ==> forall i :: 0 <= i < |remote.backups| ==> names[i] == Some(remote.backups[i])
      ensures !listed ==> names == [None]
    {
      var l := if listed then remote.backups else [];
      names := seq(|l|, i requires 0 <= i < |l| => Some(l[i])) + [None];
    }

    method DeleteOldestOnce(round: Round) returns (deleted: bool)
      requires Ascending(remote.backups)
      modifies this
      ensures Ascending(remote.backups)
      ensures var (b, ok) := DeleteOldest(old(remote).backups, round);
              remote == old(remote).(backups := b) && deleted == ok
    {
      var dirs := GetBackups(round.listed);
      if |dirs| > 2 {
        var oldest := dirs[0];
        if round.rmWorks { remote := remote.(backups := remote.backups[1..]); }
        var left := GetBackups(round.relisted);
        if left[0] == oldest { return false; }
        return true;
      }
      return false;
    }

    method ReclaimSpace(env: Env) returns (free: Option<int>)
      requires Ascending(remote.backups)
      modifies this
      ensures var (b, f) := Reclaim(old(remote).backups, env, 0);
              remote == old(remote).(backups := b) && free == f
    {
      var k := 0;
      if env.rounds == [] { return None; }
      var space := env.rounds[0].free;
      while space < env.size
        invariant Ascending(remote.backups) && remote == old(remote).(backups := remote.backups)
        invariant k < |env.rounds| && space == env.rounds[k].free
        invariant Reclaim(remote.backups, env, k) == Reclaim(old(remote).backups, env, 0)
        decreases |env.rounds| - k
      {
        var deleted := DeleteOldestOnce(env.rounds[k]);
        if !deleted { break; }
        k := k + 1;
        if k == |env.rounds| { return None; }
        space := env.rounds[k].free;
      }
      free := Some(space);
    }

    method RotateNames(t: Stamp, env: Env) returns (returnCode: bool)
      modifies this
      ensures (remote, returnCode) == Rotate(old(remote), t, env)
    {
      var latest := LatestStamp(remote, env.latestListed);
      var ok := true;
      if latest.Some? {
        var (r, done) := Retire(remote, latest.value, env.mvLatest);
        remote, ok := r, done;
      }
      returnCode := ok;
      if returnCode {
        var (r, done) := Publish(remote, t, env.mvPartial);
        remote, ok := r, done;
        returnCode := ok;
        if !ok && latest.Some? {
          remote := Restore(remote, latest.value, env.mvBack);
        }
      }
    }

    /** start, from the creation of the partial directory on. */
    method StartBackup(t: Stamp, env: Env) returns (reported: bool)
      requires Ascending(remote.backups)
      modifies this
      ensures (remote, reported) == Start(old(remote), t, env)
    {
      reported := false;
      remote := MakePartial(remote, t, env.mkdirWorks);
      var free := ReclaimSpace(env);
      if free == None || free.value < env.size { return; }
      if env.permsSaved {
        remote := MakePartial(remote, t, env.mkdirAgain != Fails);
        if env.mkdirAgain == Works {
          reported := true;
          if env.anyRsync {
            reported := env.transferred;
            if env.transferred { reported := RotateNames(t, env); }
          }
          if !reported { remote := Clean(remote, env.cleanWorks); }
        }
      }
    }
  }
}
