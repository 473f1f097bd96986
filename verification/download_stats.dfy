/** The statistics layer of the bot's database module, over in-memory
    tables instead of the ORM: creating or updating a user, logging a
    download with the user's success counter, one user's statistics, and a
    user's recent history. Whether a commit succeeds is a parameter; the
    clock is a parameter of the rows that carry a time. */
module DownloadStats {
  import opened Text

  /** A row of `users` without its key; `created_at` and `last_active` are
      left out. */
  datatype User = User(username: Option<string>, firstName: Option<string>,
                       lastName: Option<string>, languageCode: Option<string>, totalDownloads: int)

  /** A row of `downloads`; `download_time` is left out. */
  datatype Download = Download(userId: int, url: string, platform: string, title: Option<string>,
                               fileSize: Option<int>, status: string, errorMessage: Option<string>,
                               createdAt: int)

  /** The two tables: users by their primary key, the Telegram id, and
      downloads in insertion order. */
  datatype Db = Db(users: map<int, User>, downloads: seq<Download>)

  const Success: string := "success"
  const DefaultLanguage: string := "ar"

  // ---------------------------------------------------------------------------
  // get_or_create_user

  /** A key of the `user_data` dictionary: missing, or present with a value
      that may be `None`. */
  datatype Given<T> = Missing | Present(value: T) {
    /** `user_data.get(key, default)` */
    function Or(default: T): T {
      match this
      case Missing => default
      case Present(v) => v
    }
  }

  datatype UserData = UserData(id: int, username: Given<Option<string>>, firstName: Given<Option<string>>,
                               lastName: Given<Option<string>>, languageCode: Given<Option<string>>)

  /** `get_or_create_user`: a new user takes the given names, `None` for the
      missing ones and language `ar` when none is given, and starts with no
      downloads; an existing user takes every name that is given and keeps
      the others, its language and its counter. A failed commit is rolled
      back and gives `None`. */
  function GetOrCreateUser(db: Db, data: UserData, commitOk: bool): (r: (Db, Option<User>))
    ensures !commitOk ==> r == (db, None)
    ensures commitOk ==> && r.1.Some?
                         && r.0 == Db(db.users[data.id := r.1.value], db.downloads)
    ensures commitOk && data.id !in db.users ==>
              && r.1.value.totalDownloads == 0
              && r.1.value.username == data.username.Or(None)
              && r.1.value.firstName == data.firstName.Or(None)
              && r.1.value.lastName == data.lastName.Or(None)
              && (data.languageCode.Missing? ==> r.1.value.languageCode == Some(DefaultLanguage))
              && (data.languageCode.Present? ==> r.1.value.languageCode == data.languageCode.value)
    ensures commitOk && data.id in db.users ==>
              var before := db.users[data.id];
              && r.1.value.totalDownloads == before.totalDownloads
              && r.1.value.languageCode == before.languageCode
              && (data.username.Missing? ==> r.1.value.username == before.username)
              && (data.firstName.Missing? ==> r.1.value.firstName == before.firstName)
              && (data.lastName.Missing? ==> r.1.value.lastName == before.lastName)
              && (data.username.Present? ==> r.1.value.username == data.username.value)
              && (data.firstName.Present? ==> r.1.value.firstName == data.firstName.value)
              && (data.lastName.Present? ==> r.1.value.lastName == data.lastName.value)
  {
    if !commitOk then (db, None)
    else
      var user :=
        if data.id !in db.users then
          User(data.username.Or(None), data.firstName.Or(None), data.lastName.Or(None),
               data.languageCode.Or(Some(DefaultLanguage)), 0)
        else
          var u := db.users[data.id];
          u.(username := data.username.Or(u.username), firstName := data.firstName.Or(u.firstName),
             lastName := data.lastName.Or(u.lastName));
      (Db(db.users[data.id := user], db.downloads), Some(user))
  }

  /** Seeing the same user data again changes nothing. */
  lemma GetOrCreateIdempotent(db: Db, data: UserData)
    ensures var first := GetOrCreateUser(db, data, true);
            GetOrCreateUser(first.0, data, true) == first
  {
    var first := GetOrCreateUser(db, data, true);
    assert first.0.users[data.id := first.1.value] == first.0.users;
  }

  // ---------------------------------------------------------------------------
  // log_download

  /** `log_download`: the row is added, and the user's counter goes up by
      one when the download succeeded and the user exists. A failed commit
      is rolled back and gives false. */
  function LogDownload(db: Db, d: Download, commitOk: bool): (r: (Db, bool))
    ensures r.1 == commitOk
    ensures !commitOk ==> r.0 == db
    ensures commitOk ==> r.0.downloads == db.downloads + [d]
    ensures commitOk ==> r.0.users.Keys == db.users.Keys
    ensures commitOk ==> forall id :: id in db.users && id != d.userId ==> r.0.users[id] == db.users[id]
    ensures commitOk && d.userId in db.users ==>
              var before := db.users[d.userId];
              && r.0.users[d.userId] == before.(totalDownloads := r.0.users[d.userId].totalDownloads)
              && (r.0.users[d.userId].totalDownloads == before.totalDownloads + 1 <==> d.status == Success)
              && (r.0.users[d.userId].totalDownloads == before.totalDownloads <==> d.status != Success)
  {
    if !commitOk then (db, false)
    else
      var users :=
        if d.status == Success && d.userId in db.users then
          var u := db.users[d.userId];
          db.users[d.userId := u.(totalDownloads := u.totalDownloads + 1)]
        else db.users;
      (Db(users, db.downloads + [d]), true)
  }

  /** The number of successful downloads of a user in a table. */
  function SuccessCount(ds: seq<Download>, id: int): (n: nat)
    ensures n <= |ds|
  {
    if ds == [] then 0
    else SuccessCount(ds[..|ds| - 1], id) + (if ds[|ds| - 1].userId == id && ds[|ds| - 1].status == Success then 1 else 0)
  }

  /** Every user's counter is the number of its successful downloads. */
  predicate CountersTrack(db: Db) {
    forall id :: id in db.users ==> db.users[id].totalDownloads == SuccessCount(db.downloads, id)
  }

  /** Logging a download keeps every counter equal to the number of the
      user's successful downloads. */
  lemma LogDownloadKeepsCounters(db: Db, d: Download, commitOk: bool)
    requires CountersTrack(db)
    ensures CountersTrack(LogDownload(db, d, commitOk).0)
  {
    if commitOk {
      var after := LogDownload(db, d, commitOk).0;
      assert after.downloads[..|after.downloads| - 1] == db.downloads;
    }
  }

  /** A user created before any of its downloads is logged starts in step. */
  lemma NewUserKeepsCounters(db: Db, data: UserData)
    requires CountersTrack(db) && data.id !in db.users && SuccessCount(db.downloads, data.id) == 0
    ensures CountersTrack(GetOrCreateUser(db, data, true).0)
  {
  }

  // ---------------------------------------------------------------------------
  // get_user_stats

  /** `Download.query.filter_by(user_id=...)`, in table order. */
  function UserDownloads(ds: seq<Download>, id: int): (r: seq<Download>)
    ensures |r| <= |ds|
    ensures forall d :: d in r ==> d in ds && d.userId == id
    ensures forall d :: d in ds && d.userId == id ==> d in r
  {
    if ds == [] then []
    else UserDownloads(ds[..|ds| - 1], id) + (if ds[|ds| - 1].userId == id then [ds[|ds| - 1]] else [])
  }

  /** The successful downloads, in order. */
  function Successful(ds: seq<Download>): (r: seq<Download>)
    ensures |r| <= |ds|
    ensures forall d :: d in r <==> d in ds && d.status == Success
  {
    if ds == [] then []
    else Successful(ds[..|ds| - 1]) + (if ds[|ds| - 1].status == Success then [ds[|ds| - 1]] else [])
  }

  /** The platform counts, as a dictionary in insertion order. */
  type Tally = seq<(string, nat)>

  /** `platforms[p] = platforms.get(p, 0) + 1`: the entry of `p` goes up in
      place, or a new entry goes at the end. */
  function Bump(t: Tally, p: string): (r: Tally)
    ensures |r| == |t| || |r| == |t| + 1
  {
    if t == [] then [(p, 1)]
    else if t[0].0 == p then [(p, t[0].1 + 1)] + t[1..]
    else [t[0]] + Bump(t[1..], p)
  }

  /** The platform dictionary the loop builds from some downloads. */
  function TallyOf(ds: seq<Download>): Tally {
    if ds == [] then [] else Bump(TallyOf(ds[..|ds| - 1]), ds[|ds| - 1].platform)
  }

  /** `platforms.get(p, 0)` */
  function CountIn(t: Tally, p: string): nat {
    if t == [] then 0 else if t[0].0 == p then t[0].1 else CountIn(t[1..], p)
  }

  /** The number of downloads from a platform. */
  function PlatformCount(ds: seq<Download>, p: string): nat {
    if ds == [] then 0
    else PlatformCount(ds[..|ds| - 1], p) + (if ds[|ds| - 1].platform == p then 1 else 0)
  }

  /** A dictionary has each key once. */
  predicate UniqueKeys(t: Tally) {
    forall j, k :: 0 <= j < k < |t| ==> t[j].0 != t[k].0
  }

  function SumCounts(t: Tally): nat {
    if t == [] then 0 else t[0].1 + SumCounts(t[1..])
  }

  /** Bumping `p` adds one to its count and leaves every other count. */
  lemma {:induction false} BumpCount(t: Tally, p: string, q: string)
    ensures CountIn(Bump(t, p), q) == CountIn(t, q) + (if q == p then 1 else 0)
  {
    if t != [] && t[0].0 != p {
      BumpCount(t[1..], p, q);
    }
  }

  lemma {:induction false} BumpSum(t: Tally, p: string)
    ensures SumCounts(Bump(t, p)) == SumCounts(t) + 1
  {
    if t != [] && t[0].0 != p {
      BumpSum(t[1..], p);
    } else if t != [] {
      assert Bump(t, p)[1..] == t[1..];
    }
  }

  lemma {:induction false} BumpPositive(t: Tally, p: string)
    requires forall k :: 0 <= k < |t| ==> t[k].1 >= 1
    ensures forall k :: 0 <= k < |Bump(t, p)| ==> Bump(t, p)[k].1 >= 1
  {
    if t != [] && t[0].0 != p {
      BumpPositive(t[1..], p);
      assert forall k :: 1 <= k < |Bump(t, p)| ==> Bump(t, p)[k] == Bump(t[1..], p)[k - 1];
    } else if t != [] {
      assert forall k :: 1 <= k < |Bump(t, p)| ==> Bump(t, p)[k] == t[k];
    }
  }

  /** The keys after a bump are the keys before and `p`. */
  lemma {:induction false} BumpKeys(t: Tally, p: string, k: nat)
    requires k < |Bump(t, p)|
    ensures Bump(t, p)[k].0 == p || exists j :: 0 <= j < |t| && t[j].0 == Bump(t, p)[k].0
  {
    var r := Bump(t, p);
    if t != [] && k > 0 {
      if t[0].0 != p {
        assert r[k] == Bump(t[1..], p)[k - 1];
        BumpKeys(t[1..], p, k - 1);
        if r[k].0 != p {
          var j :| 0 <= j < |t[1..]| && t[1..][j].0 == r[k].0;
          assert t[j + 1].0 == r[k].0;
        }
      } else {
        assert r[k] == t[k];
      }
    }
  }

  lemma {:induction false} BumpUnique(t: Tally, p: string)
    requires UniqueKeys(t)
    ensures UniqueKeys(Bump(t, p))
  {
    var r := Bump(t, p);
    if t != [] && t[0].0 != p {
      var rest := Bump(t[1..], p);
      TailUnique(t);
      BumpUnique(t[1..], p);
      forall k | 0 <= k < |rest|
        ensures rest[k].0 != t[0].0
      {
        BumpKeys(t[1..], p, k);
        if rest[k].0 != p {
          var j :| 0 <= j < |t[1..]| && t[1..][j].0 == rest[k].0;
          assert t[j + 1].0 == rest[k].0;
        }
      }
      forall j, k | 0 <= j < k < |r|
        ensures r[j].0 != r[k].0
      {
        assert r[k] == rest[k - 1];
        if j > 0 {
          assert r[j] == rest[j - 1];
        }
      }
    } else if t != [] {
      forall j, k | 0 <= j < k < |r|
        ensures r[j].0 != r[k].0
      {
        assert r[k] == t[k];
        if j > 0 {
          assert r[j] == t[j];
        }
      }
    }
  }

  lemma TailUnique(t: Tally)
    requires t != [] && UniqueKeys(t)
    ensures UniqueKeys(t[1..])
  {
    forall j, k | 0 <= j < k < |t[1..]|
      ensures t[1..][j].0 != t[1..][k].0
    {
      assert t[1..][j] == t[j + 1] && t[1..][k] == t[k + 1];
    }
  }

  /** The dictionary counts every platform exactly, has each platform once,
      only positive counts, and counts add up to the number of downloads. */
  lemma {:induction false} TallyFacts(ds: seq<Download>)
    ensures forall p :: CountIn(TallyOf(ds), p) == PlatformCount(ds, p)
    ensures UniqueKeys(TallyOf(ds))
    ensures forall k :: 0 <= k < |TallyOf(ds)| ==> TallyOf(ds)[k].1 >= 1
    ensures SumCounts(TallyOf(ds)) == |ds|
    ensures forall k :: 0 <= k < |TallyOf(ds)| ==> exists i :: 0 <= i < |ds| && ds[i].platform == TallyOf(ds)[k].0
  {
    if ds != [] {
      var front := ds[..|ds| - 1];
      var p := ds[|ds| - 1].platform;
      TallyFacts(front);
      forall q
        ensures CountIn(TallyOf(ds), q) == PlatformCount(ds, q)
      {
        BumpCount(TallyOf(front), p, q);
      }
      BumpSum(TallyOf(front), p);
      BumpPositive(TallyOf(front), p);
      BumpUnique(TallyOf(front), p);
      var t := TallyOf(ds);
      forall k | 0 <= k < |t|
        ensures exists i :: 0 <= i < |ds| && ds[i].platform == t[k].0
      {
        BumpKeys(TallyOf(front), p, k);
        if t[k].0 != p {
          var j :| 0 <= j < |TallyOf(front)| && TallyOf(front)[j].0 == t[k].0;
          var i :| 0 <= i < |front| && front[i].platform == TallyOf(front)[j].0;
          assert ds[i] == front[i];
        }
      }
    }
  }

  /** Every platform that some download has is in the dictionary. */
  lemma {:induction false} TallyHasEveryPlatform(ds: seq<Download>, i: nat)
    requires i < |ds|
    ensures exists k :: 0 <= k < |TallyOf(ds)| && TallyOf(ds)[k].0 == ds[i].platform
  {
    PlatformCountPositive(ds, i);
    TallyFacts(ds);
    CountInPresent(TallyOf(ds), ds[i].platform);
  }

  lemma {:induction false} PlatformCountPositive(ds: seq<Download>, i: nat)
    requires i < |ds|
    ensures PlatformCount(ds, ds[i].platform) >= 1
  {
    if i < |ds| - 1 {
      PlatformCountPositive(ds[..|ds| - 1], i);
    }
  }

  lemma {:induction false} CountInPresent(t: Tally, p: string)
    requires CountIn(t, p) > 0
    ensures exists k :: 0 <= k < |t| && t[k].0 == p
  {
    if t[0].0 != p {
      CountInPresent(t[1..], p);
      var k :| 0 <= k < |t[1..]| && t[1..][k].0 == p;
      assert t[k + 1].0 == p;
    }
  }

  /** The index `max(platforms.items(), key=...)` picks: the first entry
      with the largest count, as a left-to-right scan that only moves on a
      strictly larger count finds it. */
  function BestIndex(t: Tally): (k: nat)
    requires |t| > 0
    ensures k < |t|
    ensures forall j :: 0 <= j < |t| ==> t[j].1 <= t[k].1
    ensures forall j :: 0 <= j < k ==> t[j].1 < t[k].1
  {
    if |t| == 1 then 0
    else
      var k := BestIndex(t[..|t| - 1]);
      assert forall j :: 0 <= j < |t| - 1 ==> t[..|t| - 1][j] == t[j];
      if t[|t| - 1].1 > t[k].1 then |t| - 1 else k
  }

  /** `sum(d.file_size for d in ds if d.file_size)` */
  function SizeOf(ds: seq<Download>): int {
    if ds == [] then 0
    else
      var d := ds[|ds| - 1];
      SizeOf(ds[..|ds| - 1]) + (if d.fileSize.Some? && d.fileSize.value != 0 then d.fileSize.value else 0)
  }

  /** The statistics dictionary; the size is in bytes, since `total_size_mb`
      is a rounded float, and `member_since` is left out. */
  datatype Stats = Stats(totalDownloads: int, successfulDownloads: nat, failedDownloads: nat, totalSize: int,
                         mostUsedPlatform: Option<string>, platformsUsed: Tally)

  /** The state of the loop over the successful downloads. */
  ghost predicate StatsLoop(succ: seq<Download>, i: nat, platforms: Tally, size: int) {
    i <= |succ| && platforms == TallyOf(succ[..i]) && size == SizeOf(succ[..i])
  }

  /** `get_user_stats`: `{}` for an unknown user; otherwise the counts of
      successful and failed downloads, the byte total of the successful
      ones, their platforms with counts in first-seen order, and the
      platform with the most of them. */
  method GetUserStats(db: Db, userId: int) returns (r: Option<Stats>)
    ensures r.None? <==> userId !in db.users
    ensures r.Some? ==> var mine := UserDownloads(db.downloads, userId);
      && r.value.totalDownloads == db.users[userId].totalDownloads
      && r.value.successfulDownloads == |Successful(mine)|
      && r.value.successfulDownloads + r.value.failedDownloads == |mine|
      && r.value.totalSize == SizeOf(Successful(mine))
      && r.value.platformsUsed == TallyOf(Successful(mine))
      && (r.value.mostUsedPlatform.None? <==> r.value.successfulDownloads == 0)
    ensures r.Some? && r.value.mostUsedPlatform.Some? ==>
      && |r.value.platformsUsed| > 0
      && r.value.mostUsedPlatform.value == r.value.platformsUsed[BestIndex(r.value.platformsUsed)].0
  {
    if userId !in db.users {
      return None;
    }
    var mine := UserDownloads(db.downloads, userId);
    var succ := Successful(mine);
    var platforms: Tally := [];
    var size := 0;
    var i := 0;
    while i < |succ|
      invariant StatsLoop(succ, i, platforms, size)
    {
      assert succ[..i + 1][..i] == succ[..i];
      var d := succ[i];
      platforms := Bump(platforms, d.platform);
      if d.fileSize.Some? && d.fileSize.value != 0 {
        size := size + d.fileSize.value;
      }
      i := i + 1;
    }
    assert succ[..i] == succ;
    TallyFacts(succ);
    var most := if platforms == [] then None else Some(platforms[BestIndex(platforms)].0);
    if succ != [] {
      TallyHasEveryPlatform(succ, 0);
    }
    var user := db.users[userId];
    return Some(Stats(user.totalDownloads, |succ|, |mine| - |succ|, size, most, platforms));
  }

  /** What the statistics say about the platforms: each successful
      download's platform is listed once, with the number of successful
      downloads from it, and the counts add up to the number of successful
      downloads. */
  lemma StatsPlatforms(succ: seq<Download>)
    ensures UniqueKeys(TallyOf(succ)) && SumCounts(TallyOf(succ)) == |succ|
    ensures forall k :: 0 <= k < |TallyOf(succ)| ==>
              TallyOf(succ)[k].1 == PlatformCount(succ, TallyOf(succ)[k].0) >= 1
    ensures forall i :: 0 <= i < |succ| ==>
              exists k :: 0 <= k < |TallyOf(succ)| && TallyOf(succ)[k].0 == succ[i].platform
  {
    var t := TallyOf(succ);
    TallyFacts(succ);
    forall k | 0 <= k < |t|
      ensures t[k].1 == PlatformCount(succ, t[k].0)
    {
      UniqueCountIn(t, k);
    }
    forall i | 0 <= i < |succ|
      ensures exists k :: 0 <= k < |t| && t[k].0 == succ[i].platform
    {
      TallyHasEveryPlatform(succ, i);
    }
  }

  /** The most used platform has the largest count of successful downloads,
      and every platform listed before it has a smaller one. */
  lemma MostUsedIsMax(succ: seq<Download>)
    requires succ != []
    ensures |TallyOf(succ)| > 0
    ensures var t := TallyOf(succ); var best := t[BestIndex(t)].0;
      forall i :: 0 <= i < |succ| ==> PlatformCount(succ, succ[i].platform) <= PlatformCount(succ, best)
    ensures var t := TallyOf(succ); var best := t[BestIndex(t)].0;
      forall k :: 0 <= k < BestIndex(t) ==> PlatformCount(succ, t[k].0) < PlatformCount(succ, best)
  {
    StatsPlatforms(succ);
    var t := TallyOf(succ);
    var b := BestIndex(t);
    forall i | 0 <= i < |succ|
      ensures PlatformCount(succ, succ[i].platform) <= PlatformCount(succ, t[b].0)
    {
      var k :| 0 <= k < |t| && t[k].0 == succ[i].platform;
      assert t[k].1 <= t[b].1;
    }
  }

  /** In a dictionary with each key once, a key's count is its entry's. */
  lemma {:induction false} UniqueCountIn(t: Tally, k: nat)
    requires k < |t| && UniqueKeys(t)
    ensures CountIn(t, t[k].0) == t[k].1
  {
    if k > 0 {
      assert t[0].0 != t[k].0;
      assert t[1..][k - 1] == t[k];
      TailUnique(t);
      UniqueCountIn(t[1..], k - 1);
    }
  }

  // ---------------------------------------------------------------------------
  // get_user_download_history

  /** A download is at least as new as another. */
  predicate SortedNewestFirst(s: seq<Download>) {
    forall j, k :: 0 <= j < k < |s| ==> s[j].createdAt >= s[k].createdAt
  }

  /** Puts `d` before the first row that is not newer than it. */
  function InsertNewest(d: Download, s: seq<Download>): (r: seq<Download>)
    ensures multiset(r) == multiset(s) + multiset{d}
    ensures |r| == |s| + 1
    ensures r[0] == d || (s != [] && r[0] == s[0])
  {
    if s == [] then [d]
    else if s[0].createdAt <= d.createdAt then [d] + s
    else
      var rest := InsertNewest(d, s[1..]);
      assert s == [s[0]] + s[1..];
      [s[0]] + rest
  }

  lemma {:induction false} InsertNewestSorted(d: Download, s: seq<Download>)
    requires SortedNewestFirst(s)
    ensures SortedNewestFirst(InsertNewest(d, s))
  {
    if s != [] && s[0].createdAt > d.createdAt {
      var rest := InsertNewest(d, s[1..]);
      SortedTail(s);
      InsertNewestSorted(d, s[1..]);
      HeadNotOlder(d, s, rest);
      ConsSorted(s[0], rest);
    } else if s != [] {
      forall k | 0 <= k < |s|
        ensures d.createdAt >= s[k].createdAt
      {
        assert s[0].createdAt >= s[k].createdAt || k == 0;
      }
      ConsSorted(d, s);
    }
  }

  lemma SortedTail(s: seq<Download>)
    requires s != [] && SortedNewestFirst(s)
    ensures SortedNewestFirst(s[1..])
  {
    forall j, k | 0 <= j < k < |s[1..]|
      ensures s[1..][j].createdAt >= s[1..][k].createdAt
    {
      assert s[1..][j] == s[j + 1] && s[1..][k] == s[k + 1];
    }
  }

  /** The newest row of a sorted list is at least as new as every row of the
      rest with `d` inserted, when it is newer than `d`. */
  lemma HeadNotOlder(d: Download, s: seq<Download>, rest: seq<Download>)
    requires s != [] && SortedNewestFirst(s) && s[0].createdAt > d.createdAt
    requires multiset(rest) == multiset(s[1..]) + multiset{d}
    ensures forall k :: 0 <= k < |rest| ==> s[0].createdAt >= rest[k].createdAt
  {
    forall k | 0 <= k < |rest|
      ensures s[0].createdAt >= rest[k].createdAt
    {
      assert rest[k] in multiset(rest);
      assert rest[k] == d || rest[k] in multiset(s[1..]);
      if rest[k] != d {
        var j :| 0 <= j < |s[1..]| && s[1..][j] == rest[k];
        assert s[j + 1] == rest[k];
      }
    }
  }

  /** A row at least as new as every row of a sorted list can go first. */
  lemma ConsSorted(x: Download, rest: seq<Download>)
    requires SortedNewestFirst(rest)
    requires forall k :: 0 <= k < |rest| ==> x.createdAt >= rest[k].createdAt
    ensures SortedNewestFirst([x] + rest)
  {
    var r := [x] + rest;
    forall j, k | 0 <= j < k < |r|
      ensures r[j].createdAt >= r[k].createdAt
    {
      assert r[k] == rest[k - 1];
      if j > 0 {
        assert r[j] == rest[j - 1];
      }
    }
  }

  /** `order_by(Download.created_at.desc())`; rows with the same time keep
      their table order. */
  function NewestFirst(ds: seq<Download>): (r: seq<Download>)
    ensures multiset(r) == multiset(ds)
  {
    if ds == [] then []
    else
      assert ds == [ds[0]] + ds[1..];
      InsertNewest(ds[0], NewestFirst(ds[1..]))
  }

  lemma {:induction false} NewestFirstSorted(ds: seq<Download>)
    ensures SortedNewestFirst(NewestFirst(ds))
  {
    if ds != [] {
      NewestFirstSorted(ds[1..]);
      InsertNewestSorted(ds[0], NewestFirst(ds[1..]));
    }
  }

  /** One dictionary of the history; `date` keeps the row's time unformatted
      and `size_mb` the size in bytes, `0` when there is none. */
  datatype HistoryEntry = HistoryEntry(platform: string, title: string, status: string, date: int, size: int)

  function EntryOf(d: Download): (e: HistoryEntry)
    ensures e.title != []
    ensures d.title.Some? && d.title.value != [] ==> e.title == d.title.value
    ensures e.platform == d.platform && e.status == d.status && e.date == d.createdAt
  {
    HistoryEntry(d.platform, if d.title.Some? && d.title.value != [] then d.title.value else "Unknown",
                 d.status, d.createdAt, if d.fileSize.Some? && d.fileSize.value != 0 then d.fileSize.value else 0)
  }

  /** The user's rows as the history query orders them. */
  function HistoryRows(db: Db, userId: int): (rows: seq<Download>)
    ensures multiset(rows) == multiset(UserDownloads(db.downloads, userId))
    ensures |rows| == |UserDownloads(db.downloads, userId)|
    ensures SortedNewestFirst(rows)
  {
    var mine := UserDownloads(db.downloads, userId);
    NewestFirstSorted(mine);
    assert |multiset(NewestFirst(mine))| == |multiset(mine)|;
    NewestFirst(mine)
  }

  /** `get_user_download_history`: the newest `limit` downloads of the user,
      newest first, each shaped into an entry whose title is `Unknown` when
      the row has none. */
  method GetUserDownloadHistory(db: Db, userId: int, limit: nat) returns (history: seq<HistoryEntry>)
    ensures |history| == if limit < |UserDownloads(db.downloads, userId)| then limit
                         else |UserDownloads(db.downloads, userId)|
    ensures forall k :: 0 <= k < |history| ==> history[k] == EntryOf(HistoryRows(db, userId)[k])
    ensures forall j, k :: 0 <= j < |history| <= k < |HistoryRows(db, userId)| ==>
              history[j].date >= HistoryRows(db, userId)[k].createdAt
    ensures forall j, k :: 0 <= j < k < |history| ==> history[j].date >= history[k].date
  {
    var rows := HistoryRows(db, userId);
    var n := if limit < |rows| then limit else |rows|;
    history := [];
    var i := 0;
    while i < n
      invariant i <= n && |history| == i
      invariant forall k :: 0 <= k < i ==> history[k] == EntryOf(rows[k])
    {
      var entry := EntryOf(rows[i]);
      AppendKeeps(history, entry);
      history := history + [entry];
      i := i + 1;
    }
    HistoryOrdered(rows, history);
  }

  lemma AppendKeeps<T>(s: seq<T>, x: T)
    ensures forall k :: 0 <= k < |s| ==> (s + [x])[k] == s[k]
    ensures (s + [x])[|s|] == x
  {
  }

  /** Entries dated like a prefix of rows sorted newest first are sorted
      too, and none is older than a row past the prefix. */
  lemma HistoryOrdered(rows: seq<Download>, history: seq<HistoryEntry>)
    requires SortedNewestFirst(rows) && |history| <= |rows|
    requires forall k :: 0 <= k < |history| ==> history[k] == EntryOf(rows[k])
    ensures forall j, k :: 0 <= j < |history| <= k < |rows| ==> history[j].date >= rows[k].createdAt
    ensures forall j, k :: 0 <= j < k < |history| ==> history[j].date >= history[k].date
  {
    assert forall k :: 0 <= k < |history| ==> history[k].date == rows[k].createdAt;
  }
}
