/**
 * The Convex database of the application: one table per document kind, each a map from
 * document id to document. Ids are handed out in increasing order, so a table read in
 * ascending id order is read in creation order, the order in which Convex returns the
 * documents of an index that share the indexed fields.
 *
 * A mutation is a transaction: when it throws, none of its writes take effect. Every
 * mutation of the model therefore either returns Err and leaves the tables as they were, or
 * returns Ok with the new tables stated in full.
 */
module Store {
  import opened Wrappers

  type Id = nat

  datatype Role = Admin | Member

  datatype User = User(
    clerkId: string, email: string, name: Option<string>, imageUrl: Option<string>,
    avatarStorageId: Option<Id>, timezone: Option<string>, oneSignalPlayerId: Option<string>,
    createdAt: int, updatedAt: int)

  datatype Video = Video(
    uploadId: string, assetId: Option<string>, playbackId: Option<string>, userId: string,
    circleId: Option<Id>, title: Option<string>, duration: Option<int>, aspectRatio: Option<string>,
    status: string, error: Option<string>, createdAt: int, updatedAt: int)

  datatype Circle = Circle(
    name: string, iconImageId: Option<Id>, coverImageId: Option<Id>, description: Option<string>,
    adminId: Id, inviteCode: string, timezone: string, createdAt: int, updatedAt: int,
    archivedAt: Option<int>)

  datatype Prompt = Prompt(circleId: Id, text: string, order: int, active: bool, createdAt: int)

  datatype Membership = Membership(
    userId: Id, circleId: Id, role: Role, joinedAt: int, leftAt: Option<int>, blocked: bool,
    emailUnsubscribed: bool)

  datatype Newsletter = Newsletter(
    circleId: Id, cycleId: string, title: Option<string>, issueNumber: int, status: string,
    publishedAt: Option<int>, recipientCount: Option<int>, createdAt: int)

  datatype NewsletterRead = NewsletterRead(userId: Id, circleId: Id, newsletterId: Id, readAt: int)

  datatype Submission = Submission(
    circleId: Id, userId: Id, cycleId: string, submittedAt: Option<int>, lockedAt: Option<int>,
    createdAt: int, updatedAt: int)

  datatype Response = Response(submissionId: Id, promptId: Id, text: string, createdAt: int, updatedAt: int)

  datatype MediaKind = Image | VideoClip

  datatype Media = Media(
    responseId: Id, storageId: Option<Id>, muxAssetId: Option<string>, kind: MediaKind,
    thumbnailUrl: Option<string>, order: int, uploadedAt: int, createdAt: int)

  datatype Preferences = Preferences(userId: Id, submissionReminders: bool, newsletterReady: bool, createdAt: int, updatedAt: int)

  datatype AdminReminder = AdminReminder(circleId: Id, adminUserId: Id, targetUserId: Option<Id>, cycleId: string, sentAt: int)

  /** What ctx.db.patch throws for an id that names no document. */
  const NonexistentDocument := "Update on nonexistent document ID"

  /** JavaScript truthiness of an optional timestamp: present and not zero. */
  predicate Truthy(t: Option<int>)
  {
    t.Some? && t.value != 0
  }

  /** A membership that has been left (`membership.leftAt` is truthy). */
  predicate HasLeft(m: Membership)
  {
    Truthy(m.leftAt)
  }

  predicate IsPublished(n: Newsletter)
  {
    n.status == "published"
  }

  /** A locked submission, as the mutations test it: `lockedAt && lockedAt > 0`. */
  predicate IsLocked(s: Submission)
  {
    s.lockedAt.Some? && s.lockedAt.value > 0
  }

  /** Every id of the table is below n. */
  ghost predicate Below<R>(m: map<Id, R>, n: nat)
  {
    forall k :: k in m ==> k < n
  }

  /** The ids below n present in the table, in ascending (creation) order. */
  function Scan<R>(m: map<Id, R>, n: nat): (ks: seq<Id>)
    ensures forall i :: 0 <= i < |ks| ==> ks[i] in m && ks[i] < n
    ensures forall k :: k in m && k < n ==> k in ks
    ensures forall i, j :: 0 <= i < j < |ks| ==> ks[i] < ks[j]
  {
    if n == 0 then [] else Scan(m, n - 1) + (if n - 1 in m then [n - 1] else [])
  }

  /** The ids of ks (all in m) whose document satisfies p, in the order of ks. */
  function Where<R>(m: map<Id, R>, ks: seq<Id>, p: R -> bool): (r: seq<Id>)
    requires forall i :: 0 <= i < |ks| ==> ks[i] in m
    ensures |r| <= |ks|
    ensures forall i :: 0 <= i < |r| ==> r[i] in m && p(m[r[i]])
    ensures forall k :: k in r <==> k in ks && p(m[k])
  {
    if ks == [] then []
    else
      var rest := Where(m, ks[1..], p);
      assert forall k :: k in ks <==> k == ks[0] || k in ks[1..] by {
        assert ks == [ks[0]] + ks[1..];
      }
      if p(m[ks[0]]) then [ks[0]] + rest else rest
  }

  /** A selection from ascending ids is ascending. */
  lemma {:induction false} WhereAscending<R>(m: map<Id, R>, ks: seq<Id>, p: R -> bool)
    requires forall i :: 0 <= i < |ks| ==> ks[i] in m
    requires forall i, j :: 0 <= i < j < |ks| ==> ks[i] < ks[j]
    ensures forall i, j :: 0 <= i < j < |Where(m, ks, p)| ==> Where(m, ks, p)[i] < Where(m, ks, p)[j]
  {
    if ks != [] {
      var rest := Where(m, ks[1..], p);
      WhereAscending(m, ks[1..], p);
      if p(m[ks[0]]) {
        forall k | k in rest
          ensures ks[0] < k
        {
          HeadBelowTail(ks, k);
        }
        ConsAscending(ks[0], rest);
      }
    }
  }

  /** An id below every id of an ascending list, put in front of it, keeps it ascending. */
  lemma ConsAscending(x: Id, s: seq<Id>)
    requires forall i, j :: 0 <= i < j < |s| ==> s[i] < s[j]
    requires forall k :: k in s ==> x < k
    ensures forall i, j :: 0 <= i < j < |[x] + s| ==> ([x] + s)[i] < ([x] + s)[j]
  {
    var r := [x] + s;
    forall i, j | 0 <= i < j < |r|
      ensures r[i] < r[j]
    {
      assert r[j] == s[j - 1] && s[j - 1] in s;
      if i > 0 {
        assert r[i] == s[i - 1];
      }
    }
  }

  /** The head of an ascending list is below every id of its tail. */
  lemma HeadBelowTail(ks: seq<Id>, x: Id)
    requires ks != [] && forall i, j :: 0 <= i < j < |ks| ==> ks[i] < ks[j]
    requires x in ks[1..]
    ensures ks[0] < x
  {
    var k :| 0 <= k < |ks[1..]| && ks[1..][k] == x;
    assert ks[k + 1] == x;
  }

  /** The ids of the documents of the table that satisfy p, in creation order. */
  function Rows<R>(m: map<Id, R>, n: nat, p: R -> bool): (r: seq<Id>)
    ensures forall i :: 0 <= i < |r| ==> r[i] in m && p(m[r[i]])
    ensures forall k :: k in m && k < n && p(m[k]) ==> k in r
    ensures forall k :: k in r ==> k in m && k < n && p(m[k])
    ensures forall i, j :: 0 <= i < j < |r| ==> r[i] < r[j]
  {
    WhereAscending(m, Scan(m, n), p);
    Where(m, Scan(m, n), p)
  }

  /** `.first()`: the earliest document of a selection. */
  function First(ks: seq<Id>): (r: Option<Id>)
    ensures r.Some? <==> |ks| > 0
    ensures r.Some? ==> r.value == ks[0]
  {
    if |ks| == 0 then None else Some(ks[0])
  }

  /** `.first()` of a selection: the earliest document of the table that satisfies p. */
  function FirstWhere<R>(m: map<Id, R>, n: nat, p: R -> bool): (r: Option<Id>)
    ensures r.Some? ==> r.value in m && r.value < n && p(m[r.value])
    ensures r.Some? ==> forall k :: k in m && k < r.value ==> !p(m[k])
    ensures r.None? <==> forall k :: k in m && k < n ==> !p(m[k])
  {
    var rows := Rows(m, n, p);
    if |rows| == 0 then None
    else
      assert rows[0] in rows;
      assert forall k :: k in rows ==> rows[0] <= k by {
        forall k | k in rows
          ensures rows[0] <= k
        {
          var i :| 0 <= i < |rows| && rows[i] == k;
        }
      }
      assert forall k :: k in m && k < rows[0] && p(m[k]) ==> k in rows;
      Some(rows[0])
  }

  /** The earliest document that satisfies p is the one FirstWhere finds. */
  lemma FirstWhereIs<R>(m: map<Id, R>, n: nat, p: R -> bool, id: Id)
    requires id in m && id < n && p(m[id])
    requires forall k :: k in m && k < id ==> !p(m[k])
    ensures FirstWhere(m, n, p) == Some(id)
  {
    var r := FirstWhere(m, n, p);
    assert r.Some?;
    assert !(r.value < id);
  }

  /** `.take(count)`: the first count ids of a selection, or all of them when there are fewer. */
  function Take(ks: seq<Id>, count: nat): (r: seq<Id>)
    ensures |r| == if |ks| <= count then |ks| else count
    ensures forall i :: 0 <= i < |r| ==> r[i] == ks[i]
    ensures forall k :: k in r ==> k in ks
    ensures |ks| <= count ==> r == ks
    ensures (forall i, j :: 0 <= i < j < |ks| ==> ks[i] < ks[j]) ==> (forall i, j :: 0 <= i < j < |r| ==> r[i] < r[j])
  {
    if |ks| <= count then ks
    else
      var r := ks[..count];
      assert forall k :: k in r ==> k in ks by {
        forall k | k in r
          ensures k in ks
        {
          var i :| 0 <= i < |r| && r[i] == k;
          assert ks[i] == k;
        }
      }
      r
  }

  /** A strictly ascending sequence of ids lists each id once. */
  lemma AscendingDistinct(ks: seq<Id>)
    requires forall i, j :: 0 <= i < j < |ks| ==> ks[i] < ks[j]
    ensures forall i, j :: 0 <= i < |ks| && 0 <= j < |ks| && ks[i] == ks[j] ==> i == j
  {
  }

  /** Two strictly ascending sequences with the same elements are the same sequence. */
  lemma {:induction false} AscendingUnique(a: seq<Id>, b: seq<Id>)
    requires forall i, j :: 0 <= i < j < |a| ==> a[i] < a[j]
    requires forall i, j :: 0 <= i < j < |b| ==> b[i] < b[j]
    requires forall k :: k in a <==> k in b
    ensures a == b
    decreases |a|
  {
    assert a == [] <==> b == [] by {
      if a != [] { assert a[0] in b; }
      if b != [] { assert b[0] in a; }
    }
    if a != [] {
      AscendingHead(a);
      AscendingHead(b);
      assert a[0] in b && b[0] in a;
      AscendingUnique(a[1..], b[1..]);
      assert a == [a[0]] + a[1..] && b == [b[0]] + b[1..];
    }
  }

  /** The head of an ascending sequence is its least element; the tail holds the others and ascends. */
  lemma AscendingHead(a: seq<Id>)
    requires a != [] && forall i, j :: 0 <= i < j < |a| ==> a[i] < a[j]
    ensures forall k :: k in a ==> a[0] <= k
    ensures forall k :: k in a[1..] <==> k in a && k != a[0]
    ensures forall i, j :: 0 <= i < j < |a[1..]| ==> a[1..][i] < a[1..][j]
  {
    assert forall i :: 1 <= i < |a| ==> a[i] == a[1..][i - 1];
  }

  /** An ascending sequence whose elements all occur in another ascending sequence is no longer. */
  lemma AscendingSubsetLength(a: seq<Id>, b: seq<Id>)
    requires forall i, j :: 0 <= i < j < |a| ==> a[i] < a[j]
    requires forall i, j :: 0 <= i < j < |b| ==> b[i] < b[j]
    requires forall k :: k in a ==> k in b
    ensures |a| <= |b|
  {
    var sa, sb := set k | k in a, set k | k in b;
    AscendingCard(a, sa);
    AscendingCard(b, sb);
    assert sb == sa + (sb - sa) && sa * (sb - sa) == {};
  }

  /** The entries the ids of ks contribute, in the order of ks (a `map` followed by `filter(Boolean)`). */
  function FlatMap<T>(ks: seq<Id>, f: Id -> seq<T>): seq<T>
  {
    if ks == [] then [] else FlatMap(ks[..|ks| - 1], f) + f(ks[|ks| - 1])
  }

  /** One entry per id at most gives no more entries than ids. */
  lemma {:induction false} FlatMapLength<T>(ks: seq<Id>, f: Id -> seq<T>)
    requires forall k :: |f(k)| <= 1
    ensures |FlatMap(ks, f)| <= |ks|
    decreases |ks|
  {
    if ks != [] {
      FlatMapLength(ks[..|ks| - 1], f);
    }
  }

  /** The entries of every id of ks are in the flat map. */
  lemma {:induction false} FlatMapHas<T>(ks: seq<Id>, f: Id -> seq<T>, i: nat, x: T)
    requires i < |ks| && x in f(ks[i])
    ensures x in FlatMap(ks, f)
    decreases |ks|
  {
    var init := ks[..|ks| - 1];
    if i < |init| {
      assert init[i] == ks[i];
      FlatMapHas(init, f, i, x);
    }
  }

  /** Every entry of the flat map is an entry of some id of ks. */
  lemma {:induction false} FlatMapSource<T>(ks: seq<Id>, f: Id -> seq<T>, x: T) returns (i: nat)
    requires x in FlatMap(ks, f)
    ensures i < |ks| && x in f(ks[i])
    decreases |ks|
  {
    var init := ks[..|ks| - 1];
    if x in FlatMap(init, f) {
      i := FlatMapSource(init, f, x);
      assert init[i] == ks[i];
    } else {
      i := |ks| - 1;
    }
  }

  /** A strictly ascending sequence holding exactly the ids b to b + count - 1 lists them in order. */
  lemma {:induction false} AscendingRange(r: seq<Id>, b: Id, count: nat)
    requires forall i, j :: 0 <= i < j < |r| ==> r[i] < r[j]
    requires forall k :: k in r <==> b <= k < b + count
    ensures |r| == count && forall i :: 0 <= i < count ==> r[i] == b + i
    decreases count
  {
    assert r == [] <==> count == 0 by {
      if r != [] { assert r[0] in r; }
      if count != 0 { assert b in r; }
    }
    if count != 0 {
      var last := r[|r| - 1];
      assert last == b + count - 1 by {
        assert last in r;
        assert b + count - 1 in r;
        assert forall k :: k in r ==> k <= last;
      }
      var init := r[..|r| - 1];
      assert forall i, j :: 0 <= i < j < |init| ==> init[i] < init[j] by {
        assert forall i :: 0 <= i < |init| ==> init[i] == r[i];
      }
      assert forall k :: k in init <==> b <= k < b + count - 1 by {
        assert forall k :: k in init <==> k in r && k != last;
      }
      AscendingRange(init, b, count - 1);
      assert forall i :: 0 <= i < |init| ==> r[i] == init[i];
    }
  }

  /** Sorting a list without repeats gives a list without repeats. */
  /** A reordering of ascending ids lists distinct ids, exactly those of the original. */
  lemma PermutedIds(ids: seq<Id>, sorted: seq<Id>)
    requires forall i, j :: 0 <= i < j < |ids| ==> ids[i] < ids[j]
    requires multiset(sorted) == multiset(ids)
    ensures forall i, j :: 0 <= i < j < |sorted| ==> sorted[i] != sorted[j]
    ensures forall k :: k in sorted <==> k in ids
  {
    SortedDistinct(ids, sorted);
    forall k
      ensures k in sorted <==> k in ids
    {
      assert k in sorted <==> k in multiset(sorted);
      assert k in ids <==> k in multiset(ids);
    }
  }

  lemma SortedDistinct(s: seq<Id>, sorted: seq<Id>)
    requires forall i, j :: 0 <= i < j < |s| ==> s[i] < s[j]
    requires multiset(sorted) == multiset(s)
    ensures forall i, j :: 0 <= i < j < |sorted| ==> sorted[i] != sorted[j]
  {
    forall i, j | 0 <= i < j < |sorted|
      ensures sorted[i] != sorted[j]
    {
      if sorted[i] == sorted[j] {
        var x := sorted[i];
        assert multiset(sorted)[x] >= 2 by {
          assert sorted == sorted[..i] + [x] + sorted[i + 1..j] + [x] + sorted[j + 1..];
        }
        AscendingMultiplicity(s, x);
        assert false;
      }
    }
  }

  lemma {:induction false} AscendingMultiplicity(s: seq<Id>, x: Id)
    requires forall i, j :: 0 <= i < j < |s| ==> s[i] < s[j]
    ensures multiset(s)[x] <= 1
    decreases |s|
  {
    if s != [] {
      assert s == [s[0]] + s[1..];
      AscendingMultiplicity(s[1..], x);
      if s[0] == x {
        assert x !in s[1..];
      }
    }
  }

  /** An ascending sequence lists a set exactly when its length is the set's size. */
  lemma {:induction false} AscendingCard(r: seq<Id>, s: set<Id>)
    requires forall i, j :: 0 <= i < j < |r| ==> r[i] < r[j]
    requires forall k :: k in r <==> k in s
    ensures |r| == |s|
    decreases |r|
  {
    if r != [] {
      var last := r[|r| - 1];
      var init := r[..|r| - 1];
      assert forall k :: k in init <==> k in s - {last} by {
        forall k
          ensures k in init <==> k in s - {last}
        {
          if k in init {
            var i :| 0 <= i < |init| && init[i] == k;
            assert r[i] == k;
          }
          if k in s - {last} {
            var i :| 0 <= i < |r| && r[i] == k;
            assert i < |r| - 1;
            assert init[i] == k;
          }
        }
      }
      AscendingCard(init, s - {last});
    }
  }

  /** Filtering a list extended by one id extends the filtered list by that id when it passes. */
  lemma {:induction false} WhereAppend<R>(m: map<Id, R>, ks: seq<Id>, x: Id, p: R -> bool)
    requires forall i :: 0 <= i < |ks| ==> ks[i] in m
    requires x in m
    ensures Where(m, ks + [x], p) == Where(m, ks, p) + (if p(m[x]) then [x] else [])
    decreases |ks|
  {
    if ks == [] {
      assert ([] + [x])[1..] == [];
    } else {
      assert (ks + [x])[1..] == ks[1..] + [x];
      WhereAppend(m, ks[1..], x, p);
    }
  }

  /** The number of ids of ks whose document satisfies p. */
  function CountWhere<R>(m: map<Id, R>, ks: seq<Id>, p: R -> bool): nat
    requires forall i :: 0 <= i < |ks| ==> ks[i] in m
  {
    if ks == [] then 0
    else CountWhere(m, ks[..|ks| - 1], p) + (if p(m[ks[|ks| - 1]]) then 1 else 0)
  }

  /** A prefix one longer is the prefix followed by the next element. */
  lemma PrefixSnoc<T>(s: seq<T>, i: nat)
    requires i < |s|
    ensures s[..i + 1] == s[..i] + [s[i]]
  {
  }

  /** The prefix of a sequence as long as the sequence is the sequence. */
  lemma PrefixFull<T>(s: seq<T>)
    ensures s[..|s|] == s
  {
  }

  /** In an ascending list no id occurs before its own position. */
  lemma NotInPrefix(s: seq<Id>, i: nat)
    requires forall a, b :: 0 <= a < b < |s| ==> s[a] < s[b]
    requires i < |s|
    ensures s[i] !in s[..i]
  {
    assert forall a :: 0 <= a < i ==> s[..i][a] == s[a] && s[a] < s[i];
  }

  /** Counting over one more id adds one when it passes. */
  lemma CountWhereAppend<R>(m: map<Id, R>, ks: seq<Id>, x: Id, p: R -> bool)
    requires forall i :: 0 <= i < |ks| ==> ks[i] in m
    requires x in m
    ensures CountWhere(m, ks + [x], p) == CountWhere(m, ks, p) + (if p(m[x]) then 1 else 0)
  {
    assert (ks + [x])[..|ks|] == ks;
  }

  /** Counting the ids that pass counts the filtered list. */
  lemma {:induction false} CountWhereIsWhere<R>(m: map<Id, R>, ks: seq<Id>, p: R -> bool)
    requires forall i :: 0 <= i < |ks| ==> ks[i] in m
    ensures CountWhere(m, ks, p) == |Where(m, ks, p)|
    decreases |ks|
  {
    if ks != [] {
      var init := ks[..|ks| - 1];
      CountWhereIsWhere(m, init, p);
      assert ks == init + [ks[|ks| - 1]];
      WhereAppend(m, init, ks[|ks| - 1], p);
    }
  }

  /** The ids of the documents of the table that satisfy p. */
  ghost function Matching<R>(m: map<Id, R>, p: R -> bool): set<Id>
  {
    set k | k in m && p(m[k])
  }

  /** Removing rows never adds to the rows that satisfy p. */
  lemma MatchingShrinks<R>(m: map<Id, R>, m': map<Id, R>, p: R -> bool)
    requires forall k :: k in m' ==> k in m && m'[k] == m[k]
    ensures |Matching(m', p)| <= |Matching(m, p)|
  {
    var a, b := Matching(m', p), Matching(m, p);
    assert a <= b;
    assert b == a + (b - a) && a * (b - a) == {};
  }

  /**
   * Counting, among the rows that satisfy q, those that also satisfy p counts every
   * document that satisfies p, when p implies q.
   */
  lemma CountRows<R>(m: map<Id, R>, n: nat, q: R -> bool, p: R -> bool)
    requires Below(m, n)
    requires forall r :: p(r) ==> q(r)
    ensures CountWhere(m, Rows(m, n, q), p) == |Matching(m, p)|
  {
    var rows := Rows(m, n, q);
    CountWhereIsWhere(m, rows, p);
    var r := Where(m, rows, p);
    WhereAscending(m, rows, p);
    AscendingCard(r, Matching(m, p));
  }

  /** Scan depends only on which ids below n are present. */
  lemma {:induction false} ScanAgree<R, S>(m: map<Id, R>, m': map<Id, S>, n: nat)
    requires forall k :: k < n ==> (k in m <==> k in m')
    ensures Scan(m, n) == Scan(m', n)
    decreases n
  {
    if n > 0 {
      ScanAgree(m, m', n - 1);
    }
  }

  /** Where depends only on whether the listed documents pass. */
  lemma {:induction false} WhereAgree<R>(m: map<Id, R>, m': map<Id, R>, ks: seq<Id>, p: R -> bool)
    requires forall i :: 0 <= i < |ks| ==> ks[i] in m && ks[i] in m' && p(m[ks[i]]) == p(m'[ks[i]])
    ensures Where(m, ks, p) == Where(m', ks, p)
    decreases |ks|
  {
    if ks != [] {
      WhereAgree(m, m', ks[1..], p);
    }
  }

  /** Inserting the document with the next id appends it to every selection it passes. */
  lemma RowsInsert<R>(m: map<Id, R>, n: nat, x: R, p: R -> bool)
    requires Below(m, n)
    ensures Rows(m[n := x], n + 1, p) == Rows(m, n, p) + (if p(x) then [n] else [])
  {
    var m' := m[n := x];
    ScanAgree(m, m', n);
    var ks := Scan(m, n);
    assert Scan(m', n + 1) == ks + [n];
    WhereAppend(m', ks, n, p);
    WhereAgree(m, m', ks, p);
  }

  /** Patching a document in a way that keeps whether it passes leaves the selection as it was. */
  lemma RowsSet<R>(m: map<Id, R>, n: nat, k: Id, x: R, p: R -> bool)
    requires k in m && p(m[k]) == p(x)
    ensures Rows(m[k := x], n, p) == Rows(m, n, p)
  {
    ScanAgree(m, m[k := x], n);
    WhereAgree(m, m[k := x], Scan(m, n), p);
  }

  /** A selection lists every document that passes, once. */
  lemma RowsCard<R>(m: map<Id, R>, n: nat, p: R -> bool)
    requires Below(m, n)
    ensures |Rows(m, n, p)| == |Matching(m, p)|
  {
    AscendingCard(Rows(m, n, p), Matching(m, p));
  }

  /** Inserting a document under a new id adds it to the documents that pass, when it passes. */
  lemma MatchingInsert<R>(m: map<Id, R>, id: Id, x: R, p: R -> bool)
    requires id !in m
    ensures Matching(m[id := x], p) == Matching(m, p) + (if p(x) then {id} else {})
  {
  }

  /** The application's database. */
  class Database {
    var users: map<Id, User>
    var videos: map<Id, Video>
    var circles: map<Id, Circle>
    var prompts: map<Id, Prompt>
    var memberships: map<Id, Membership>
    var newsletters: map<Id, Newsletter>
    var newsletterReads: map<Id, NewsletterRead>
    var submissions: map<Id, Submission>
    var responses: map<Id, Response>
    var media: map<Id, Media>
    var preferences: map<Id, Preferences>
    var reminders: map<Id, AdminReminder>
    /** Files in Convex storage, by storage id. */
    var storage: set<Id>
    /** The id the next inserted document receives. */
    var nextId: nat

    ghost predicate Valid()
      reads this
    {
      Below(users, nextId) && Below(videos, nextId) && Below(circles, nextId) &&
      Below(prompts, nextId) && Below(memberships, nextId) && Below(newsletters, nextId) &&
      Below(newsletterReads, nextId) && Below(submissions, nextId) && Below(responses, nextId) &&
      Below(media, nextId) && Below(preferences, nextId) && Below(reminders, nextId)
    }

    constructor ()
      ensures Valid()
      ensures users == map[] && videos == map[] && circles == map[] && prompts == map[]
      ensures memberships == map[] && newsletters == map[] && newsletterReads == map[]
      ensures submissions == map[] && responses == map[] && media == map[]
      ensures preferences == map[] && reminders == map[] && storage == {} && nextId == 0
    {
      users, videos, circles, prompts := map[], map[], map[], map[];
      memberships, newsletters, newsletterReads := map[], map[], map[];
      submissions, responses, media := map[], map[], map[];
      preferences, reminders, storage := map[], map[], {};
      nextId := 0;
    }

    /** A copy of the tables of src, for work whose writes are dropped. */
    constructor Copy(src: Database)
      requires src.Valid()
      ensures Valid()
      ensures users == src.users && videos == src.videos && circles == src.circles && prompts == src.prompts
      ensures memberships == src.memberships && newsletters == src.newsletters
      ensures newsletterReads == src.newsletterReads && submissions == src.submissions
      ensures responses == src.responses && media == src.media && preferences == src.preferences
      ensures reminders == src.reminders && storage == src.storage && nextId == src.nextId
    {
      users, videos, circles, prompts := src.users, src.videos, src.circles, src.prompts;
      memberships, newsletters, newsletterReads := src.memberships, src.newsletters, src.newsletterReads;
      submissions, responses, media := src.submissions, src.responses, src.media;
      preferences, reminders, storage := src.preferences, src.reminders, src.storage;
      nextId := src.nextId;
    }

    // ctx.db.insert / patch / delete, one table at a time. A patch or delete names a
    // document that exists: the mutations look it up first.

    method InsertUser(row: User) returns (id: Id)
      requires Valid()
      modifies this`users, this`nextId
      ensures id == old(nextId) && nextId == id + 1 && id !in old(users)
      ensures users == old(users)[id := row] && Valid()
    {
      id := nextId;
      nextId := nextId + 1;
      users := users[id := row];
    }

    method SetUser(id: Id, row: User)
      requires Valid() && id in users
      modifies this`users
      ensures users == old(users)[id := row] && Valid()
    {
      users := users[id := row];
    }

    method DeleteUser(id: Id)
      requires Valid()
      modifies this`users
      ensures users == old(users) - {id} && Valid()
    {
      users := users - {id};
    }

    method InsertVideo(row: Video) returns (id: Id)
      requires Valid()
      modifies this`videos, this`nextId
      ensures id == old(nextId) && nextId == id + 1 && id !in old(videos)
      ensures videos == old(videos)[id := row] && Valid()
    {
      id := nextId;
      nextId := nextId + 1;
      videos := videos[id := row];
    }

    method SetVideo(id: Id, row: Video)
      requires Valid() && id in videos
      modifies this`videos
      ensures videos == old(videos)[id := row] && Valid()
    {
      videos := videos[id := row];
    }

    method DeleteVideo(id: Id)
      requires Valid()
      modifies this`videos
      ensures videos == old(videos) - {id} && Valid()
    {
      videos := videos - {id};
    }

    method InsertCircle(row: Circle) returns (id: Id)
      requires Valid()
      modifies this`circles, this`nextId
      ensures id == old(nextId) && nextId == id + 1 && id !in old(circles)
      ensures circles == old(circles)[id := row] && Valid()
    {
      id := nextId;
      nextId := nextId + 1;
      circles := circles[id := row];
    }

    method SetCircle(id: Id, row: Circle)
      requires Valid() && id in circles
      modifies this`circles
      ensures circles == old(circles)[id := row] && Valid()
    {
      circles := circles[id := row];
    }

    method DeleteCircle(id: Id)
      requires Valid()
      modifies this`circles
      ensures circles == old(circles) - {id} && Valid()
    {
      circles := circles - {id};
    }

    method InsertPrompt(row: Prompt) returns (id: Id)
      requires Valid()
      modifies this`prompts, this`nextId
      ensures id == old(nextId) && nextId == id + 1 && id !in old(prompts)
      ensures prompts == old(prompts)[id := row] && Valid()
    {
      id := nextId;
      nextId := nextId + 1;
      prompts := prompts[id := row];
    }

    method SetPrompt(id: Id, row: Prompt)
      requires Valid() && id in prompts
      modifies this`prompts
      ensures prompts == old(prompts)[id := row] && Valid()
    {
      prompts := prompts[id := row];
    }

    method DeletePrompt(id: Id)
      requires Valid()
      modifies this`prompts
      ensures prompts == old(prompts) - {id} && Valid()
    {
      prompts := prompts - {id};
    }

    method InsertMembership(row: Membership) returns (id: Id)
      requires Valid()
      modifies this`memberships, this`nextId
      ensures id == old(nextId) && nextId == id + 1 && id !in old(memberships)
      ensures memberships == old(memberships)[id := row] && Valid()
    {
      id := nextId;
      nextId := nextId + 1;
      memberships := memberships[id := row];
    }

    method SetMembership(id: Id, row: Membership)
      requires Valid() && id in memberships
      modifies this`memberships
      ensures memberships == old(memberships)[id := row] && Valid()
    {
      memberships := memberships[id := row];
    }

    method DeleteMembership(id: Id)
      requires Valid()
      modifies this`memberships
      ensures memberships == old(memberships) - {id} && Valid()
    {
      memberships := memberships - {id};
    }

    method InsertNewsletter(row: Newsletter) returns (id: Id)
      requires Valid()
      modifies this`newsletters, this`nextId
      ensures id == old(nextId) && nextId == id + 1 && id !in old(newsletters)
      ensures newsletters == old(newsletters)[id := row] && Valid()
    {
      id := nextId;
      nextId := nextId + 1;
      newsletters := newsletters[id := row];
    }

    method SetNewsletter(id: Id, row: Newsletter)
      requires Valid() && id in newsletters
      modifies this`newsletters
      ensures newsletters == old(newsletters)[id := row] && Valid()
    {
      newsletters := newsletters[id := row];
    }

    method DeleteNewsletter(id: Id)
      requires Valid()
      modifies this`newsletters
      ensures newsletters == old(newsletters) - {id} && Valid()
    {
      newsletters := newsletters - {id};
    }

    method InsertNewsletterRead(row: NewsletterRead) returns (id: Id)
      requires Valid()
      modifies this`newsletterReads, this`nextId
      ensures id == old(nextId) && nextId == id + 1 && id !in old(newsletterReads)
      ensures newsletterReads == old(newsletterReads)[id := row] && Valid()
    {
      id := nextId;
      nextId := nextId + 1;
      newsletterReads := newsletterReads[id := row];
    }

    method SetNewsletterRead(id: Id, row: NewsletterRead)
      requires Valid() && id in newsletterReads
      modifies this`newsletterReads
      ensures newsletterReads == old(newsletterReads)[id := row] && Valid()
    {
      newsletterReads := newsletterReads[id := row];
    }

    method DeleteNewsletterRead(id: Id)
      requires Valid()
      modifies this`newsletterReads
      ensures newsletterReads == old(newsletterReads) - {id} && Valid()
    {
      newsletterReads := newsletterReads - {id};
    }

    method InsertSubmission(row: Submission) returns (id: Id)
      requires Valid()
      modifies this`submissions, this`nextId
      ensures id == old(nextId) && nextId == id + 1 && id !in old(submissions)
      ensures submissions == old(submissions)[id := row] && Valid()
    {
      id := nextId;
      nextId := nextId + 1;
      submissions := submissions[id := row];
    }

    method SetSubmission(id: Id, row: Submission)
      requires Valid() && id in submissions
      modifies this`submissions
      ensures submissions == old(submissions)[id := row] && Valid()
    {
      submissions := submissions[id := row];
    }

    method DeleteSubmission(id: Id)
      requires Valid()
      modifies this`submissions
      ensures submissions == old(submissions) - {id} && Valid()
    {
      submissions := submissions - {id};
    }

    method InsertResponse(row: Response) returns (id: Id)
      requires Valid()
      modifies this`responses, this`nextId
      ensures id == old(nextId) && nextId == id + 1 && id !in old(responses)
      ensures responses == old(responses)[id := row] && Valid()
    {
      id := nextId;
      nextId := nextId + 1;
      responses := responses[id := row];
    }

    method SetResponse(id: Id, row: Response)
      requires Valid() && id in responses
      modifies this`responses
      ensures responses == old(responses)[id := row] && Valid()
    {
      responses := responses[id := row];
    }

    method DeleteResponse(id: Id)
      requires Valid()
      modifies this`responses
      ensures responses == old(responses) - {id} && Valid()
    {
      responses := responses - {id};
    }

    method InsertMedia(row: Media) returns (id: Id)
      requires Valid()
      modifies this`media, this`nextId
      ensures id == old(nextId) && nextId == id + 1 && id !in old(media)
      ensures media == old(media)[id := row] && Valid()
    {
      id := nextId;
      nextId := nextId + 1;
      media := media[id := row];
    }

    method SetMedia(id: Id, row: Media)
      requires Valid() && id in media
      modifies this`media
      ensures media == old(media)[id := row] && Valid()
    {
      media := media[id := row];
    }

    method DeleteMedia(id: Id)
      requires Valid()
      modifies this`media
      ensures media == old(media) - {id} && Valid()
    {
      media := media - {id};
    }

    method InsertPreferences(row: Preferences) returns (id: Id)
      requires Valid()
      modifies this`preferences, this`nextId
      ensures id == old(nextId) && nextId == id + 1 && id !in old(preferences)
      ensures preferences == old(preferences)[id := row] && Valid()
    {
      id := nextId;
      nextId := nextId + 1;
      preferences := preferences[id := row];
    }

    method SetPreferences(id: Id, row: Preferences)
      requires Valid() && id in preferences
      modifies this`preferences
      ensures preferences == old(preferences)[id := row] && Valid()
    {
      preferences := preferences[id := row];
    }

    method DeletePreferences(id: Id)
      requires Valid()
      modifies this`preferences
      ensures preferences == old(preferences) - {id} && Valid()
    {
      preferences := preferences - {id};
    }

    method InsertAdminReminder(row: AdminReminder) returns (id: Id)
      requires Valid()
      modifies this`reminders, this`nextId
      ensures id == old(nextId) && nextId == id + 1 && id !in old(reminders)
      ensures reminders == old(reminders)[id := row] && Valid()
    {
      id := nextId;
      nextId := nextId + 1;
      reminders := reminders[id := row];
    }

    method SetAdminReminder(id: Id, row: AdminReminder)
      requires Valid() && id in reminders
      modifies this`reminders
      ensures reminders == old(reminders)[id := row] && Valid()
    {
      reminders := reminders[id := row];
    }

    method DeleteAdminReminder(id: Id)
      requires Valid()
      modifies this`reminders
      ensures reminders == old(reminders) - {id} && Valid()
    {
      reminders := reminders - {id};
    }
  }
}
