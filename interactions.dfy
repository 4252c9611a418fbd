/** The interaction service (src/routes/interactions.js): one document per book holding
    the list of likes and the list of reads, each entry a username with a timestamp.
    `POST /like` toggles the requester's like, `POST /read` records a read once, and
    `GET /` projects every document to its counts.

    Each handler is specified by a function from the store before the request to the
    store after it and the reply (`Like`, `Read`); the class `Store` holds the documents
    and its route methods are proved to follow those functions. */
module Interactions {
  import opened Common
  import Auth

  /** One element of `likes` (its time is `likedAt`) or of `readings` (`readAt`). */
  datatype Entry = Entry(username: string, at: string)

  /** The interaction document of one book; `readings` is the stored `reads` array. */
  datatype Interaction = Interaction(bookId: string, readings: seq<Entry>, likes: seq<Entry>)

  /** The reply of `POST /like` and `POST /read`: the validator's errors (400) or a message (200). */
  datatype Reply = Invalid(errors: seq<FieldError>) | Ok(message: string)

  const BookIdRequired := "Book Id is required"
  const LikedMessage := "You liked this book"
  const DislikedMessage := "You disliked this book"
  const ReadMessage := "You read this book"
  const AlreadyReadMessage := "You already read this book"

  /** The store after a request, and the reply. */
  datatype Outcome = Outcome(records: seq<Interaction>, reply: Reply)

  // ---------------------------------------------------------------------------
  // Entry lists

  /** `list.find(e => e.username === user)` finds something. */
  predicate HasEntry(s: seq<Entry>, user: string): (b: bool)
    ensures b <==> FirstIndex(s, (e: Entry) => e.username == user).Some?
  {
    exists i :: 0 <= i < |s| && s[i].username == user
  }

  /** No username has two entries in the list. */
  ghost predicate AtMostOnce(s: seq<Entry>)
  {
    forall i, j :: 0 <= i < j < |s| ==> s[i].username != s[j].username
  }

  /** The entries of one user, in list order. */
  function EntriesOf(s: seq<Entry>, user: string): (r: seq<Entry>)
    ensures |r| <= |s|
    ensures HasEntry(s, user) <==> r != []
  {
    if s == [] then []
    else if s[0].username == user then [s[0]] + EntriesOf(s[1..], user)
    else
      assert HasEntry(s, user) <==> HasEntry(s[1..], user) by {
        if HasEntry(s, user) {
          var i :| 0 <= i < |s| && s[i].username == user;
          assert s[1..][i - 1] == s[i];
        }
        if HasEntry(s[1..], user) {
          var i :| 0 <= i < |s[1..]| && s[1..][i].username == user;
          assert s[i + 1] == s[1..][i];
        }
      }
      EntriesOf(s[1..], user)
  }

  /** `list.filter(e => e.username !== user)`. */
  function Without(s: seq<Entry>, user: string): (r: seq<Entry>)
    ensures !HasEntry(r, user)
    ensures !HasEntry(s, user) ==> r == s
    ensures forall e :: e in r ==> e in s
    ensures |r| <= |s|
  {
    if s == [] then []
    else
      var tail := Without(s[1..], user);
      assert !HasEntry(s, user) ==> !HasEntry(s[1..], user) by {
        if HasEntry(s[1..], user) {
          var i :| 0 <= i < |s[1..]| && s[1..][i].username == user;
          assert s[i + 1] == s[1..][i];
        }
      }
      if s[0].username == user then tail
      else
        assert s == [s[0]] + s[1..];
        [s[0]] + tail
  }

  lemma {:induction false} WithoutConcat(a: seq<Entry>, b: seq<Entry>, user: string)
    ensures Without(a + b, user) == Without(a, user) + Without(b, user)
  {
    if a == [] {
      assert a + b == b;
    } else {
      assert (a + b)[0] == a[0];
      assert (a + b)[1..] == a[1..] + b;
      WithoutConcat(a[1..], b, user);
    }
  }

  /** Filtering one user out leaves every other user's entries, in order, as they were. */
  lemma {:induction false} WithoutKeepsOthers(s: seq<Entry>, user: string, other: string)
    requires other != user
    ensures EntriesOf(Without(s, user), other) == EntriesOf(s, other)
  {
    if s != [] {
      WithoutKeepsOthers(s[1..], user, other);
    }
  }

  /** Filtering removes exactly the user's own entries. */
  lemma {:induction false} WithoutLength(s: seq<Entry>, user: string)
    ensures |Without(s, user)| + |EntriesOf(s, user)| == |s|
  {
    if s != [] {
      WithoutLength(s[1..], user);
    }
  }

  lemma {:induction false} WithoutKeepsAtMostOnce(s: seq<Entry>, user: string)
    requires AtMostOnce(s)
    ensures AtMostOnce(Without(s, user))
  {
    if s != [] {
      WithoutKeepsAtMostOnce(s[1..], user);
      var tail := Without(s[1..], user);
      if s[0].username != user {
        forall e | e in tail ensures e.username != s[0].username {
          assert e in s[1..];
          var j :| 0 <= j < |s[1..]| && s[1..][j] == e;
          assert s[j + 1] == e;
        }
        var r := [s[0]] + tail;
        forall i, j | 0 <= i < j < |r| ensures r[i].username != r[j].username {
          assert r[j] == tail[j - 1] && r[j] in tail;
          if i > 0 { assert r[i] == tail[i - 1]; }
        }
      }
    }
  }

  /** In a list with at most one entry per user, a user who has an entry has exactly one. */
  lemma {:induction false} OneEntryEach(s: seq<Entry>, user: string)
    requires AtMostOnce(s)
    ensures |EntriesOf(s, user)| == if HasEntry(s, user) then 1 else 0
  {
    if s != [] {
      assert AtMostOnce(s[1..]) by {
        forall i, j | 0 <= i < j < |s[1..]| ensures s[1..][i].username != s[1..][j].username {
          assert s[1..][i] == s[i + 1] && s[1..][j] == s[j + 1];
        }
      }
      OneEntryEach(s[1..], user);
      if s[0].username == user {
        assert !HasEntry(s[1..], user) by {
          forall j | 0 <= j < |s[1..]| ensures s[1..][j].username != user {
            assert s[1..][j] == s[j + 1];
          }
        }
      }
    }
  }

  lemma AppendKeepsAtMostOnce(s: seq<Entry>, e: Entry)
    requires AtMostOnce(s) && !HasEntry(s, e.username)
    ensures AtMostOnce(s + [e])
  {
    var r := s + [e];
    forall i, j | 0 <= i < j < |r| ensures r[i].username != r[j].username {
      if j == |s| {
        assert r[i] == s[i];
      } else {
        assert r[i] == s[i] && r[j] == s[j];
      }
    }
  }

  /** The like list after the requester's like: their entries are filtered out when there
      are any, otherwise one entry is appended at the end. */
  function ToggleLike(likes: seq<Entry>, user: string, at: string): (r: seq<Entry>)
    ensures HasEntry(likes, user) ==> !HasEntry(r, user)
    ensures !HasEntry(likes, user) ==> r == likes + [Entry(user, at)]
    ensures forall other :: other != user ==> EntriesOf(r, other) == EntriesOf(likes, other)
    ensures AtMostOnce(likes) ==> AtMostOnce(r)
    ensures AtMostOnce(likes) ==>
              |r| == if HasEntry(likes, user) then |likes| - 1 else |likes| + 1
  {
    if HasEntry(likes, user) then
      var r := Without(likes, user);
      assert forall other :: other != user ==> EntriesOf(r, other) == EntriesOf(likes, other) by {
        forall other | other != user ensures EntriesOf(r, other) == EntriesOf(likes, other) {
          WithoutKeepsOthers(likes, user, other);
        }
      }
      assert AtMostOnce(likes) ==> AtMostOnce(r) && |r| == |likes| - 1 by {
        if AtMostOnce(likes) {
          WithoutKeepsAtMostOnce(likes, user);
          WithoutLength(likes, user);
          OneEntryEach(likes, user);
        }
      }
      r
    else
      var r := likes + [Entry(user, at)];
      assert forall other :: other != user ==> EntriesOf(r, other) == EntriesOf(likes, other) by {
        forall other | other != user ensures EntriesOf(r, other) == EntriesOf(likes, other) {
          EntriesOfAppendOther(likes, Entry(user, at), other);
        }
      }
      assert AtMostOnce(likes) ==> AtMostOnce(r) by {
        if AtMostOnce(likes) { AppendKeepsAtMostOnce(likes, Entry(user, at)); }
      }
      r
  }

  lemma {:induction false} EntriesOfAppendOther(s: seq<Entry>, e: Entry, other: string)
    requires e.username != other
    ensures EntriesOf(s + [e], other) == EntriesOf(s, other)
  {
    if s == [] {
      assert [] + [e] == [e];
      assert [e][1..] == [];
    } else {
      assert (s + [e])[0] == s[0];
      assert (s + [e])[1..] == s[1..] + [e];
      EntriesOfAppendOther(s[1..], e, other);
    }
  }

  /** The read list after the requester's read: unchanged when they already have an entry,
      otherwise one entry appended at the end. */
  function AddRead(readings: seq<Entry>, user: string, at: string): (r: seq<Entry>)
    ensures HasEntry(r, user)
    ensures HasEntry(readings, user) ==> r == readings
    ensures !HasEntry(readings, user) ==> r == readings + [Entry(user, at)]
    ensures AtMostOnce(readings) ==> AtMostOnce(r)
  {
    if HasEntry(readings, user) then readings
    else
      var r := readings + [Entry(user, at)];
      assert r[|readings|].username == user;
      assert AtMostOnce(readings) ==> AtMostOnce(r) by {
        if AtMostOnce(readings) { AppendKeepsAtMostOnce(readings, Entry(user, at)); }
      }
      r
  }

  // ---------------------------------------------------------------------------
  // The store

  /** The store's invariant, as the handlers keep it: one document per book id, and at
      most one like and at most one read per user in each document. */
  ghost predicate WellFormed(records: seq<Interaction>)
  {
    && (forall i, j :: 0 <= i < j < |records| ==> records[i].bookId != records[j].bookId)
    && (forall i :: 0 <= i < |records| ==> AtMostOnce(records[i].likes) && AtMostOnce(records[i].readings))
  }

  /** `Interactions.findOne({ bookId })`. */
  function FindRecord(records: seq<Interaction>, bookId: string): (r: Option<nat>)
    ensures r.Some? ==> r.value < |records| && records[r.value].bookId == bookId
    ensures r.Some? ==> forall j :: 0 <= j < r.value ==> records[j].bookId != bookId
    ensures r.None? <==> forall j :: 0 <= j < |records| ==> records[j].bookId != bookId
  {
    FirstIndex(records, (d: Interaction) => d.bookId == bookId)
  }

  /** The validation of `bookId` that both handlers run before touching the store. */
  function BookIdErrors(bookId: string): (r: seq<FieldError>)
    ensures r == [] <==> bookId != ""
  {
    Required("bookId", bookId, BookIdRequired)
  }

  /** `POST /like` by the user named `user` at time `at`. */
  function Like(records: seq<Interaction>, bookId: string, user: string, at: string): (o: Outcome)
    ensures bookId == "" ==>
              o == Outcome(records, Invalid([FieldError("bookId", BookIdRequired)]))
    ensures bookId != "" ==> o.reply.Ok?
    ensures bookId != "" && FindRecord(records, bookId).None? ==>
              && o.records == records + [Interaction(bookId, [], [Entry(user, at)])]
              && o.reply == Ok(LikedMessage)
    ensures bookId != "" && FindRecord(records, bookId).Some? ==>
              var i := FindRecord(records, bookId).value;
              && |o.records| == |records|
              && o.records[i] == records[i].(likes := ToggleLike(records[i].likes, user, at))
              && o.reply == Ok(if HasEntry(records[i].likes, user) then DislikedMessage else LikedMessage)
    ensures forall j :: 0 <= j < |records| ==>
              o.records[j].bookId == records[j].bookId && o.records[j].readings == records[j].readings
    ensures forall j :: 0 <= j < |records| && records[j].bookId != bookId ==> o.records[j] == records[j]
  {
    if bookId == "" then Outcome(records, Invalid(BookIdErrors(bookId)))
    else match FindRecord(records, bookId)
      case None => Outcome(records + [Interaction(bookId, [], [Entry(user, at)])], Ok(LikedMessage))
      case Some(i) =>
        var doc := records[i];
        Outcome(records[i := doc.(likes := ToggleLike(doc.likes, user, at))],
                Ok(if HasEntry(doc.likes, user) then DislikedMessage else LikedMessage))
  }

  /** `POST /read` by the user named `user` at time `at`. */
  function Read(records: seq<Interaction>, bookId: string, user: string, at: string): (o: Outcome)
    ensures bookId == "" ==>
              o == Outcome(records, Invalid([FieldError("bookId", BookIdRequired)]))
    ensures bookId != "" && FindRecord(records, bookId).None? ==>
              && o.records == records + [Interaction(bookId, [Entry(user, at)], [])]
              && o.reply == Ok(ReadMessage)
    ensures bookId != "" && FindRecord(records, bookId).Some? ==>
              var i := FindRecord(records, bookId).value;
              && |o.records| == |records|
              && o.records[i] == records[i].(readings := AddRead(records[i].readings, user, at))
              && o.reply == Ok(if HasEntry(records[i].readings, user) then AlreadyReadMessage else ReadMessage)
    ensures o.reply == Ok(AlreadyReadMessage) ==> o.records == records
    ensures forall j :: 0 <= j < |records| ==>
              o.records[j].bookId == records[j].bookId && o.records[j].likes == records[j].likes
    ensures forall j :: 0 <= j < |records| && records[j].bookId != bookId ==> o.records[j] == records[j]
  {
    if bookId == "" then Outcome(records, Invalid(BookIdErrors(bookId)))
    else match FindRecord(records, bookId)
      case None => Outcome(records + [Interaction(bookId, [Entry(user, at)], [])], Ok(ReadMessage))
      case Some(i) =>
        var doc := records[i];
        if HasEntry(doc.readings, user) then
          assert records[i := doc] == records;
          Outcome(records, Ok(AlreadyReadMessage))
        else Outcome(records[i := doc.(readings := AddRead(doc.readings, user, at))], Ok(ReadMessage))
  }

  lemma {:induction false} LikeKeepsWellFormed(records: seq<Interaction>, bookId: string, user: string, at: string)
    requires WellFormed(records)
    ensures WellFormed(Like(records, bookId, user, at).records)
  {
    var r := Like(records, bookId, user, at).records;
    if bookId != "" && FindRecord(records, bookId).Some? {
      var i := FindRecord(records, bookId).value;
      assert AtMostOnce(records[i].likes);
      forall j | 0 <= j < |r| ensures AtMostOnce(r[j].likes) && AtMostOnce(r[j].readings) {
        if j != i { assert r[j] == records[j]; }
      }
    }
  }

  lemma {:induction false} ReadKeepsWellFormed(records: seq<Interaction>, bookId: string, user: string, at: string)
    requires WellFormed(records)
    ensures WellFormed(Read(records, bookId, user, at).records)
  {
    var r := Read(records, bookId, user, at).records;
    if bookId != "" && FindRecord(records, bookId).Some? {
      var i := FindRecord(records, bookId).value;
      assert AtMostOnce(records[i].readings);
      forall j | 0 <= j < |r| ensures AtMostOnce(r[j].likes) && AtMostOnce(r[j].readings) {
        if j != i { assert r[j] == records[j]; }
      }
    }
  }

  /** After any like or read on a book, its document is the one `findOne` returns. */
  lemma LikeLeavesRecord(records: seq<Interaction>, bookId: string, user: string, at: string)
    requires bookId != ""
    ensures var r := Like(records, bookId, user, at).records;
            FindRecord(r, bookId) == Some(if FindRecord(records, bookId).Some? then FindRecord(records, bookId).value else |records|)
  {
    var p := (d: Interaction) => d.bookId == bookId;
    var r := Like(records, bookId, user, at).records;
    match FindRecord(records, bookId)
    case None =>
      FirstIndexAppend(records, p, Interaction(bookId, [], [Entry(user, at)]));
    case Some(i) =>
      FirstIndexUpdate(records, p, i, r[i]);
  }

  lemma ReadLeavesRecord(records: seq<Interaction>, bookId: string, user: string, at: string)
    requires bookId != ""
    ensures var r := Read(records, bookId, user, at).records;
            FindRecord(r, bookId) == Some(if FindRecord(records, bookId).Some? then FindRecord(records, bookId).value else |records|)
  {
    var p := (d: Interaction) => d.bookId == bookId;
    var r := Read(records, bookId, user, at).records;
    match FindRecord(records, bookId)
    case None =>
      FirstIndexAppend(records, p, Interaction(bookId, [Entry(user, at)], []));
    case Some(i) =>
      FirstIndexUpdate(records, p, i, r[i]);
  }

  /** Like, then like again, on a book whose document holds no like of the requester: the
      store is back where it was, and the replies are "liked" then "disliked". */
  lemma LikeTwiceRestores(records: seq<Interaction>, bookId: string, user: string, t1: string, t2: string)
    requires bookId != "" && FindRecord(records, bookId).Some?
    requires !HasEntry(records[FindRecord(records, bookId).value].likes, user)
    ensures var first := Like(records, bookId, user, t1);
            var second := Like(first.records, bookId, user, t2);
            first.reply == Ok(LikedMessage) && second.reply == Ok(DislikedMessage)
            && second.records == records
  {
    var i := FindRecord(records, bookId).value;
    var first := Like(records, bookId, user, t1);
    LikeLeavesRecord(records, bookId, user, t1);
    var likes := records[i].likes;
    assert first.records[i].likes == likes + [Entry(user, t1)];
    assert (likes + [Entry(user, t1)])[|likes|].username == user;
    WithoutConcat(likes, [Entry(user, t1)], user);
    assert Without([Entry(user, t1)], user) == [];
    var second := Like(first.records, bookId, user, t2);
    assert second.records[i] == records[i];
  }

  /** Starting from a book with no document, two likes leave a document with no likes
      (and no readings): the document itself is not removed. */
  lemma LikeTwiceFromNothing(records: seq<Interaction>, bookId: string, user: string, t1: string, t2: string)
    requires bookId != "" && FindRecord(records, bookId).None?
    ensures Like(Like(records, bookId, user, t1).records, bookId, user, t2).records
         == records + [Interaction(bookId, [], [])]
  {
    LikeLeavesRecord(records, bookId, user, t1);
    var first := Like(records, bookId, user, t1);
    assert first.records[|records|].likes == [Entry(user, t1)];
    assert [Entry(user, t1)][0].username == user;
    assert Without([Entry(user, t1)], user) == [];
    var second := Like(first.records, bookId, user, t2);
    assert second.records == first.records[|records| := Interaction(bookId, [], [])];
  }

  /** Two likes by a user who already liked the book do not restore it: the like moves
      to the end of the list with the later time. */
  lemma LikeTwiceFromLiked(records: seq<Interaction>, bookId: string, user: string, t1: string, t2: string)
    requires bookId != "" && FindRecord(records, bookId).Some?
    requires HasEntry(records[FindRecord(records, bookId).value].likes, user)
    ensures var i := FindRecord(records, bookId).value;
            var second := Like(Like(records, bookId, user, t1).records, bookId, user, t2).records;
            second == records[i := records[i].(likes := Without(records[i].likes, user) + [Entry(user, t2)])]
  {
    LikeLeavesRecord(records, bookId, user, t1);
  }

  /** A second read by the same user changes nothing and answers "already read". */
  lemma ReadTwice(records: seq<Interaction>, bookId: string, user: string, t1: string, t2: string)
    requires bookId != ""
    ensures var first := Read(records, bookId, user, t1);
            var second := Read(first.records, bookId, user, t2);
            second == Outcome(first.records, Ok(AlreadyReadMessage))
  {
    ReadLeavesRecord(records, bookId, user, t1);
    var first := Read(records, bookId, user, t1);
    match FindRecord(records, bookId)
    case None =>
      assert first.records[|records|].readings[0].username == user;
    case Some(i) =>
      assert HasEntry(first.records[i].readings, user);
  }

  /** Two toggles from a list without the user's like give the list back. */
  lemma ToggleTwice(likes: seq<Entry>, user: string, t1: string, t2: string)
    requires !HasEntry(likes, user)
    ensures ToggleLike(ToggleLike(likes, user, t1), user, t2) == likes
  {
    var e1 := Entry(user, t1);
    assert (likes + [e1])[|likes|].username == user;
    WithoutConcat(likes, [e1], user);
    assert Without([e1], user) == [];
  }

  /** Like, read, like again on a book the user had not liked: the likes are restored, and
      the store is exactly what the read alone would have made it. */
  lemma LikeReadLike(records: seq<Interaction>, bookId: string, user: string, t1: string, t2: string, t3: string)
    requires bookId != "" && FindRecord(records, bookId).Some?
    requires !HasEntry(records[FindRecord(records, bookId).value].likes, user)
    ensures var s1 := Like(records, bookId, user, t1).records;
            var s2 := Read(s1, bookId, user, t2).records;
            Like(s2, bookId, user, t3).records == Read(records, bookId, user, t2).records
  {
    var i := FindRecord(records, bookId).value;
    var doc := records[i];
    var e1 := Entry(user, t1);
    var readings := AddRead(doc.readings, user, t2);
    var s1 := Like(records, bookId, user, t1).records;
    assert s1 == records[i := doc.(likes := doc.likes + [e1])];
    LikeLeavesRecord(records, bookId, user, t1);
    var s2 := Read(s1, bookId, user, t2).records;
    assert s2 == records[i := doc.(likes := doc.likes + [e1], readings := readings)];
    ReadLeavesRecord(s1, bookId, user, t2);
    ToggleTwice(doc.likes, user, t1, t3);
    var s3 := Like(s2, bookId, user, t3).records;
    assert s3 == records[i := doc.(readings := readings)];
    assert Read(records, bookId, user, t2).records == records[i := doc.(readings := readings)];
  }

  // ---------------------------------------------------------------------------
  // The aggregate projection

  /** The projection of one document by `GET /`: `_id` is the book id. */
  datatype Summary = Summary(id: string, likes: seq<Entry>, readings: seq<Entry>,
                             likeCount: nat, readCount: nat, numberOfInteractions: nat)

  function Summarize(d: Interaction): (s: Summary)
    ensures s.id == d.bookId && s.likes == d.likes && s.readings == d.readings
    ensures s.likeCount == |d.likes| && s.readCount == |d.readings|
    ensures s.numberOfInteractions == s.likeCount + s.readCount
  {
    Summary(d.bookId, d.likes, d.readings, |d.likes|, |d.readings|, |d.readings| + |d.likes|)
  }

  /** `GET /`: one summary per document, in store order. */
  function Aggregate(records: seq<Interaction>): (r: seq<Summary>)
    ensures |r| == |records|
    ensures forall i :: 0 <= i < |r| ==> r[i] == Summarize(records[i])
  {
    seq(|records|, i requires 0 <= i < |records| => Summarize(records[i]))
  }

  /** In a well-formed store, a like moves its book's like count by exactly one (up for a
      like, down for a dislike) and leaves its read count and every other summary alone. */
  lemma AggregateAfterLike(records: seq<Interaction>, bookId: string, user: string, at: string, i: nat)
    requires WellFormed(records) && bookId != "" && FindRecord(records, bookId) == Some(i)
    ensures var before := Aggregate(records);
            var after := Aggregate(Like(records, bookId, user, at).records);
            && |after| == |before|
            && after[i].likeCount == (if HasEntry(records[i].likes, user) then before[i].likeCount - 1
                                      else before[i].likeCount + 1)
            && after[i].readCount == before[i].readCount
            && forall j :: 0 <= j < |before| && j != i ==> after[j] == before[j]
  {
    var r := Like(records, bookId, user, at).records;
    assert AtMostOnce(records[i].likes);
    forall j | 0 <= j < |records| && j != i ensures r[j] == records[j] {
      assert records[j].bookId != records[i].bookId;
    }
  }

  /** In a well-formed store, a read raises its book's read count by one, unless the user
      had already read it, and leaves the like count alone. */
  lemma AggregateAfterRead(records: seq<Interaction>, bookId: string, user: string, at: string, i: nat)
    requires WellFormed(records) && bookId != "" && FindRecord(records, bookId) == Some(i)
    ensures var before := Aggregate(records);
            var after := Aggregate(Read(records, bookId, user, at).records);
            && |after| == |before|
            && after[i].readCount == (if HasEntry(records[i].readings, user) then before[i].readCount
                                      else before[i].readCount + 1)
            && after[i].likeCount == before[i].likeCount
            && forall j :: 0 <= j < |before| && j != i ==> after[j] == before[j]
  {
    var r := Read(records, bookId, user, at).records;
    forall j | 0 <= j < |records| && j != i ensures r[j] == records[j] {
      assert records[j].bookId != records[i].bookId;
    }
  }

  // ---------------------------------------------------------------------------
  // The interaction collection and its routes

  class Store {
    var records: seq<Interaction>

    ghost predicate Valid()
      reads this
    {
      WellFormed(records)
    }

    constructor ()
      ensures Valid() && records == []
    {
      records := [];
    }

    /** `POST /like` for the authenticated `user` at time `at`. */
    method PostLike(bookId: string, user: Auth.Claims, at: string) returns (reply: Reply)
      requires Valid()
      modifies this
      ensures Valid()
      ensures Outcome(records, reply) == Like(old(records), bookId, user.username, at)
    {
      LikeKeepsWellFormed(records, bookId, user.username, at);
      var errors := BookIdErrors(bookId);
      if errors != [] {
        return Invalid(errors);
      }
      var found := FindRecord(records, bookId);
      if found.None? {
        records := records + [Interaction(bookId, [], [Entry(user.username, at)])];
        return Ok(LikedMessage);
      }
      var i := found.value;
      var doc := records[i];
      if HasEntry(doc.likes, user.username) {
        doc := doc.(likes := Without(doc.likes, user.username));
        records := records[i := doc];
        return Ok(DislikedMessage);
      }
      doc := doc.(likes := doc.likes + [Entry(user.username, at)]);
      records := records[i := doc];
      reply := Ok(LikedMessage);
    }

    /** `POST /read` for the authenticated `user` at time `at`. */
    method PostRead(bookId: string, user: Auth.Claims, at: string) returns (reply: Reply)
      requires Valid()
      modifies this
      ensures Valid()
      ensures Outcome(records, reply) == Read(old(records), bookId, user.username, at)
    {
      ReadKeepsWellFormed(records, bookId, user.username, at);
      var errors := BookIdErrors(bookId);
      if errors != [] {
        return Invalid(errors);
      }
      var found := FindRecord(records, bookId);
      if found.None? {
        records := records + [Interaction(bookId, [Entry(user.username, at)], [])];
        return Ok(ReadMessage);
      }
      var i := found.value;
      var doc := records[i];
      if HasEntry(doc.readings, user.username) {
        return Ok(AlreadyReadMessage);
      }
      doc := doc.(readings := doc.readings + [Entry(user.username, at)]);
      records := records[i := doc];
      reply := Ok(ReadMessage);
    }

    /** `GET /`: the summaries of all documents, in store order. */
    method GetAll() returns (summaries: seq<Summary>)
      ensures |summaries| == |records|
      ensures forall i :: 0 <= i < |records| ==>
                && summaries[i].id == records[i].bookId
                && summaries[i].likeCount == |records[i].likes|
                && summaries[i].readCount == |records[i].readings|
                && summaries[i].numberOfInteractions == |records[i].likes| + |records[i].readings|
    {
      summaries := Aggregate(records);
    }
  }
}
