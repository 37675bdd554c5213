/**
 * The in-memory store behind the server: users and food scans kept in two maps keyed by
 * integer ids that each come from their own counter, starting at 1.
 */
module Storage {
  import opened Wrappers

  datatype User = User(id: int, username: string, password: string)

  /** What a caller supplies to create a user: everything but the id. */
  datatype InsertUser = InsertUser(username: string, password: string)

  /** A stored food scan; `createdAt` is the creation time supplied by the caller, in milliseconds. */
  datatype Scan = Scan(
    id: int,
    foodName: string,
    isVegan: bool,
    analysis: string,
    confidence: int,
    imageUrl: Option<string>,
    createdAt: int)

  /** What a caller supplies to create a scan; an absent `imageUrl` is `None`. */
  datatype InsertScan = InsertScan(
    foodName: string,
    isVegan: bool,
    analysis: string,
    confidence: int,
    imageUrl: Option<string>)

  /** `insertScan.imageUrl || null`: an absent or empty URL is stored as null. */
  function StoredImageUrl(url: Option<string>): (r: Option<string>)
    ensures r.Some? <==> url.Some? && url.value != ""
    ensures r.Some? ==> r == url
  {
    if url.Some? && url.value != "" then url else None
  }

  // ----- getRecentScans: stable sort by createdAt, newest first, then slice(0, limit) -----

  /** `a` comes before `b` in the newest-first order; ties keep the earlier id first. */
  predicate Before(a: Scan, b: Scan)
  {
    a.createdAt > b.createdAt || (a.createdAt == b.createdAt && a.id < b.id)
  }

  ghost predicate NewestFirst(s: seq<Scan>)
  {
    forall i, j :: 0 <= i < j < |s| ==> s[i].createdAt >= s[j].createdAt
  }

  ghost predicate IdsIncreasing(s: seq<Scan>)
  {
    forall i, j :: 0 <= i < j < |s| ==> s[i].id < s[j].id
  }

  ghost predicate InRecentOrder(s: seq<Scan>)
  {
    forall i, j :: 0 <= i < j < |s| ==> Before(s[i], s[j])
  }

  /** Puts `x` into the newest-first list `t` ahead of every scan no newer than it. */
  function Insert(x: Scan, t: seq<Scan>): (r: seq<Scan>)
    requires NewestFirst(t)
    ensures NewestFirst(r)
    ensures multiset(r) == multiset(t) + multiset{x} && |r| == |t| + 1
    ensures r[0] == x || (t != [] && r[0] == t[0])
  {
    if t == [] || x.createdAt >= t[0].createdAt then [x] + t
    else
      var rest := Insert(x, t[1..]);
      assert t == [t[0]] + t[1..];
      [t[0]] + rest
  }

  /**
   * `sort((a, b) => b.createdAt - a.createdAt)`: a stable sort, newest first, that keeps
   * every scan and adds none.
   */
  function SortNewestFirst(s: seq<Scan>): (r: seq<Scan>)
    ensures NewestFirst(r)
    ensures multiset(r) == multiset(s) && |r| == |s|
  {
    if s == [] then []
    else
      assert s == [s[0]] + s[1..];
      Insert(s[0], SortNewestFirst(s[1..]))
  }

  lemma {:induction false} InsertKeepsRecentOrder(x: Scan, t: seq<Scan>)
    requires NewestFirst(t) && InRecentOrder(t)
    requires forall k :: 0 <= k < |t| ==> x.id < t[k].id
    ensures InRecentOrder(Insert(x, t))
  {
    if t == [] || x.createdAt >= t[0].createdAt {
      var r := [x] + t;
      forall i, j | 0 <= i < j < |r|
        ensures Before(r[i], r[j])
      {
        if i == 0 {
          assert r[j] == t[j - 1];
          assert t[j - 1].createdAt <= t[0].createdAt;
        } else {
          assert r[i] == t[i - 1] && r[j] == t[j - 1];
        }
      }
    } else {
      var rest := Insert(x, t[1..]);
      InsertKeepsRecentOrder(x, t[1..]);
      assert t == [t[0]] + t[1..];
      var r := [t[0]] + rest;
      forall i, j | 0 <= i < j < |r|
        ensures Before(r[i], r[j])
      {
        if i == 0 {
          assert r[j] in multiset(rest);
          assert r[j] == x || r[j] in t[1..];
        } else {
          assert r[i] == rest[i - 1] && r[j] == rest[j - 1];
        }
      }
    }
  }

  /** Scans listed in increasing id order come out newest first, equal times in id order. */
  lemma {:induction false} SortIsStable(s: seq<Scan>)
    requires IdsIncreasing(s)
    ensures InRecentOrder(SortNewestFirst(s))
  {
    if s != [] {
      var t := SortNewestFirst(s[1..]);
      SortIsStable(s[1..]);
      forall k | 0 <= k < |t|
        ensures s[0].id < t[k].id
      {
        assert t[k] in multiset(s[1..]);
        var m :| 0 <= m < |s[1..]| && s[1..][m] == t[k];
        assert s[1..][m] == s[m + 1];
      }
      InsertKeepsRecentOrder(s[0], t);
    }
  }

  /** A prefix of the sorted list holds only given scans, and no scan left out is newer than one kept. */
  lemma SortedPrefix(s: seq<Scan>, end: nat)
    requires end <= |s|
    ensures forall k :: 0 <= k < end ==> SortNewestFirst(s)[k] in s
    ensures forall x, k :: x in s && x !in SortNewestFirst(s)[..end] && 0 <= k < end
              ==> SortNewestFirst(s)[k].createdAt >= x.createdAt
  {
    var sorted := SortNewestFirst(s);
    forall k | 0 <= k < end
      ensures sorted[k] in s
    {
      assert sorted[k] in multiset(s);
    }
    forall x, k | x in s && x !in sorted[..end] && 0 <= k < end
      ensures sorted[k].createdAt >= x.createdAt
    {
      assert x in multiset(sorted);
      var m :| 0 <= m < |sorted| && sorted[m] == x;
    }
  }

  /** The end index of `slice(0, limit)` on a list of `len` elements (a negative limit counts from the end). */
  function SliceEnd(len: nat, limit: int): (e: nat)
    ensures e <= len
  {
    if limit < 0 then (if len + limit > 0 then len + limit else 0)
    else if limit < len then limit
    else len
  }

  class MemStorage {
    var users: map<int, User>
    var scans: map<int, Scan>
    var currentUserId: int
    var currentScanId: int

    /** Ids are handed out densely from 1, and every record is stored under its own id. */
    ghost predicate Valid()
      reads this
    {
      && 1 <= currentUserId && 1 <= currentScanId
      && (forall id :: id in users <==> 1 <= id < currentUserId)
      && (forall id :: id in users ==> users[id].id == id)
      && (forall id :: id in scans <==> 1 <= id < currentScanId)
      && (forall id :: id in scans ==> scans[id].id == id)
    }

    constructor ()
      ensures Valid()
      ensures users == map[] && scans == map[]
      ensures currentUserId == 1 && currentScanId == 1
    {
      users := map[];
      scans := map[];
      currentUserId := 1;
      currentScanId := 1;
    }

    /** `users.get(id)`. */
    method GetUser(id: int) returns (user: Option<User>)
      requires Valid()
      ensures user.Some? <==> 1 <= id < currentUserId
      ensures user.Some? ==> id in users && user.value == users[id] && user.value.id == id
    {
      if id in users {
        user := Some(users[id]);
      } else {
        user := None;
      }
    }

    /** `find` over the users in insertion order: the earliest-created user with that name. */
    method GetUserByUsername(username: string) returns (user: Option<User>)
      requires Valid()
      ensures user.Some? ==> user.value.id in users && users[user.value.id] == user.value
      ensures user.Some? ==> user.value.username == username
      ensures user.Some? ==> forall id :: id in users && id < user.value.id ==> users[id].username != username
      ensures user.None? <==> forall id :: id in users ==> users[id].username != username
    {
      var id := 1;
      while id < currentUserId
        invariant 1 <= id <= currentUserId
        invariant forall k :: 1 <= k < id ==> users[k].username != username
      {
        if users[id].username == username {
          return Some(users[id]);
        }
        id := id + 1;
      }
      return None;
    }

    /** Gives the new user the next id and stores it; nothing else changes. */
    method CreateUser(insertUser: InsertUser) returns (user: User)
      requires Valid()
      modifies this
      ensures Valid()
      ensures user == User(old(currentUserId), insertUser.username, insertUser.password)
      ensures user.id !in old(users) && forall id :: id in old(users) ==> id < user.id
      ensures users == old(users)[user.id := user]
      ensures currentUserId == old(currentUserId) + 1
      ensures scans == old(scans) && currentScanId == old(currentScanId)
    {
      var id := currentUserId;
      currentUserId := currentUserId + 1;
      user := User(id, insertUser.username, insertUser.password);
      users := users[id := user];
    }

    /** Gives the new scan the next id and the time `now`, and stores it; nothing else changes. */
    method CreateScan(insertScan: InsertScan, now: int) returns (scan: Scan)
      requires Valid()
      modifies this
      ensures Valid()
      ensures scan == Scan(old(currentScanId), insertScan.foodName, insertScan.isVegan, insertScan.analysis,
                           insertScan.confidence, StoredImageUrl(insertScan.imageUrl), now)
      ensures scan.id !in old(scans) && forall id :: id in old(scans) ==> id < scan.id
      ensures scans == old(scans)[scan.id := scan]
      ensures currentScanId == old(currentScanId) + 1
      ensures users == old(users) && currentUserId == old(currentUserId)
    {
      var id := currentScanId;
      currentScanId := currentScanId + 1;
      scan := Scan(id, insertScan.foodName, insertScan.isVegan, insertScan.analysis,
                   insertScan.confidence, StoredImageUrl(insertScan.imageUrl), now);
      scans := scans[id := scan];
    }

    /** `scans.get(id)`. */
    method GetScan(id: int) returns (scan: Option<Scan>)
      requires Valid()
      ensures scan.Some? <==> 1 <= id < currentScanId
      ensures scan.Some? ==> id in scans && scan.value == scans[id] && scan.value.id == id
    {
      if id in scans {
        scan := Some(scans[id]);
      } else {
        scan := None;
      }
    }

    /** `Array.from(scans.values())`: the stored scans in insertion order, which is id order. */
    function AllScans(): (s: seq<Scan>)
      reads this
      requires Valid()
      ensures |s| == currentScanId - 1
      ensures forall k :: 0 <= k < |s| ==> s[k] == scans[k + 1]
      ensures IdsIncreasing(s)
      ensures forall x :: x in s ==> x.id in scans && scans[x.id] == x
      ensures forall id :: id in scans ==> scans[id] in s
    {
      var s := seq(currentScanId - 1, k requires 0 <= k < currentScanId - 1 && k + 1 in scans reads this => scans[k + 1]);
      assert forall k :: 0 <= k < |s| ==> s[k] == scans[k + 1] && s[k].id == k + 1;
      assert forall id :: id in scans ==> s[id - 1] == scans[id];
      s
    }

    /**
     * At most `limit` scans (10 by default), all stored, newest first with equal times in
     * id order; no stored scan left out is newer than one returned. The store is not changed.
     */
    method GetRecentScans(limit: int := 10) returns (recent: seq<Scan>)
      requires Valid()
      ensures recent == SortNewestFirst(AllScans())[..SliceEnd(currentScanId - 1, limit)]
      ensures |recent| == SliceEnd(currentScanId - 1, limit)
      ensures 0 <= limit <= currentScanId - 1 ==> |recent| == limit
      ensures limit >= currentScanId - 1 ==> |recent| == currentScanId - 1
      ensures limit < 0 ==> |recent| == if currentScanId - 1 + limit > 0 then currentScanId - 1 + limit else 0
      ensures forall k :: 0 <= k < |recent| ==> recent[k].id in scans && scans[recent[k].id] == recent[k]
      ensures InRecentOrder(recent)
      ensures forall id, k :: id in scans && scans[id] !in recent && 0 <= k < |recent|
                ==> recent[k].createdAt >= scans[id].createdAt
    {
      var all := AllScans();
      var sorted := SortNewestFirst(all);
      var end := SliceEnd(|all|, limit);
      recent := sorted[..end];
      assert InRecentOrder(recent) by {
        SortIsStable(all);
      }
      forall k | 0 <= k < |recent|
        ensures recent[k].id in scans && scans[recent[k].id] == recent[k]
      {
        SortedPrefix(all, end);
        assert recent[k] == sorted[k] && sorted[k] in all;
      }
      forall id, k | id in scans && scans[id] !in recent && 0 <= k < |recent|
        ensures recent[k].createdAt >= scans[id].createdAt
      {
        SortedPrefix(all, end);
        assert scans[id] in all;
      }
    }
  }
}
