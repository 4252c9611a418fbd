/** The content service (src/routes/contents.js): books with a unique title, published
    by an authenticated user who alone may update or delete them; `GET /new` lists them
    newest first, and `GET /top` ranks them by interaction count.

    As in the interaction service, each handler is a function from the store before the
    request to the store after it and the reply, and the class `Library` holds the books
    and follows those functions. `GET /top` is a pure function over the two lists it
    fetches over HTTP. */
module Contents {
  import opened Common
  import opened Sorting
  import Auth
  import Interactions

  /** A stored book. `published` is its publication time in milliseconds. */
  datatype Book = Book(id: ObjectId, title: string, story: string,
                       userId: ObjectId, username: string, published: nat)

  /** The reply of a handler: the validator's errors, a plain-text refusal (both 400), or
      the message and the book concerned (200). */
  datatype Reply = Invalid(errors: seq<FieldError>) | Refused(text: string) | Done(message: string, book: Book)

  const TitleRequired := "Title is required"
  const StoryRequired := "Story is required"
  const DuplicateTitle := "Same title book is already exist"
  const BookNotFound := "Book not found"
  /** The ownership refusal; the update route sends this same text. */
  const NotOwner := "You are not authorized to delete this book"
  const PublishedMessage := "Book published successfully"
  const UpdatedMessage := "Book updated successfully"
  const DeletedMessage := "Book deleted successfully"

  datatype Outcome = Outcome(books: seq<Book>, reply: Reply)

  /** The validation both publish and update run first. */
  function BookErrors(title: string, story: string): (r: seq<FieldError>)
    ensures r == [] <==> title != "" && story != ""
    ensures title == "" ==> FieldError("title", TitleRequired) in r
    ensures story == "" ==> FieldError("story", StoryRequired) in r
  {
    Required("title", title, TitleRequired) + Required("story", story, StoryRequired)
  }

  /** `Books.findById(id)`. */
  function FindId(books: seq<Book>, id: ObjectId): (r: Option<nat>)
    ensures r.Some? ==> r.value < |books| && books[r.value].id == id
    ensures r.Some? ==> forall j :: 0 <= j < r.value ==> books[j].id != id
    ensures r.None? <==> forall j :: 0 <= j < |books| ==> books[j].id != id
  {
    FirstIndex(books, (b: Book) => b.id == id)
  }

  /** `Books.findOne({ title })` finds a book. */
  predicate TitleTaken(books: seq<Book>, title: string): (b: bool)
    ensures b <==> FirstIndex(books, (x: Book) => x.title == title).Some?
  {
    exists j :: 0 <= j < |books| && books[j].title == title
  }

  /** The store's invariant as the handlers keep it: distinct ids below the next id to be
      assigned, and distinct titles. */
  ghost predicate WellFormed(books: seq<Book>, nextId: ObjectId)
  {
    && (forall j :: 0 <= j < |books| ==> books[j].id < nextId)
    && (forall i, j :: 0 <= i < j < |books| ==> books[i].id != books[j].id)
    && (forall i, j :: 0 <= i < j < |books| ==> books[i].title != books[j].title)
  }

  /** `POST /publish` by `user` at time `now`; `id` is the identifier the store assigns. */
  function Publish(books: seq<Book>, id: ObjectId, title: string, story: string,
                   user: Auth.Claims, now: nat): (o: Outcome)
    ensures BookErrors(title, story) != [] ==> o == Outcome(books, Invalid(BookErrors(title, story)))
    ensures BookErrors(title, story) == [] && TitleTaken(books, title) ==>
              o == Outcome(books, Refused(DuplicateTitle))
    ensures o.reply.Done? <==> title != "" && story != "" && !TitleTaken(books, title)
    ensures o.reply.Done? ==>
              var b := o.reply.book;
              && o.books == books + [b] && o.reply.message == PublishedMessage
              && b.id == id && b.title == title && b.story == story
              && b.userId == user.id && b.username == user.username && b.published == now
    ensures !o.reply.Done? ==> o.books == books
  {
    var errors := BookErrors(title, story);
    if errors != [] then Outcome(books, Invalid(errors))
    else if TitleTaken(books, title) then Outcome(books, Refused(DuplicateTitle))
    else
      var b := Book(id, title, story, user.id, user.username, now);
      Outcome(books + [b], Done(PublishedMessage, b))
  }

  /** `PUT /update/:id` by `user`. The title check looks at every book, the one being
      updated included. */
  function Update(books: seq<Book>, id: ObjectId, title: string, story: string,
                  user: Auth.Claims): (o: Outcome)
    ensures BookErrors(title, story) != [] ==> o == Outcome(books, Invalid(BookErrors(title, story)))
    ensures BookErrors(title, story) == [] && FindId(books, id).None? ==>
              o == Outcome(books, Refused(BookNotFound))
    ensures BookErrors(title, story) == [] && FindId(books, id).Some?
            && books[FindId(books, id).value].userId != user.id ==>
              o == Outcome(books, Refused(NotOwner))
    ensures BookErrors(title, story) == [] && FindId(books, id).Some?
            && books[FindId(books, id).value].userId == user.id ==>
              && (TitleTaken(books, title) ==> o == Outcome(books, Refused(DuplicateTitle)))
              && (!TitleTaken(books, title) ==> o.reply.Done?)
    ensures o.reply.Done? ==> !TitleTaken(books, title)
    ensures o.reply.Done? ==>
              var i := FindId(books, id).value;
              && books[i].userId == user.id
              && o.books == books[i := books[i].(title := title, story := story)]
              && o.reply == Done(UpdatedMessage, o.books[i])
    ensures !o.reply.Done? ==> o.books == books
  {
    var errors := BookErrors(title, story);
    if errors != [] then Outcome(books, Invalid(errors))
    else match FindId(books, id)
      case None => Outcome(books, Refused(BookNotFound))
      case Some(i) =>
        if books[i].userId != user.id then Outcome(books, Refused(NotOwner))
        else if TitleTaken(books, title) then Outcome(books, Refused(DuplicateTitle))
        else
          var b := books[i].(title := title, story := story);
          Outcome(books[i := b], Done(UpdatedMessage, b))
  }

  /** `DELETE /delete/:id` by `user`: the reply carries the book as it was. */
  function Delete(books: seq<Book>, id: ObjectId, user: Auth.Claims): (o: Outcome)
    ensures FindId(books, id).None? ==> o == Outcome(books, Refused(BookNotFound))
    ensures FindId(books, id).Some? && books[FindId(books, id).value].userId != user.id ==>
              o == Outcome(books, Refused(NotOwner))
    ensures FindId(books, id).Some? && books[FindId(books, id).value].userId == user.id ==> o.reply.Done?
    ensures o.reply.Done? ==>
              var i := FindId(books, id).value;
              && books[i].userId == user.id
              && o.reply == Done(DeletedMessage, books[i])
              && o.books == books[..i] + books[i + 1..]
    ensures !o.reply.Done? ==> o.books == books
  {
    match FindId(books, id)
    case None => Outcome(books, Refused(BookNotFound))
    case Some(i) =>
      if books[i].userId != user.id then Outcome(books, Refused(NotOwner))
      else Outcome(books[..i] + books[i + 1..], Done(DeletedMessage, books[i]))
  }

  lemma PublishKeepsWellFormed(books: seq<Book>, nextId: ObjectId, title: string, story: string,
                               user: Auth.Claims, now: nat)
    requires WellFormed(books, nextId)
    ensures var o := Publish(books, nextId, title, story, user, now);
            WellFormed(o.books, if o.reply.Done? then nextId + 1 else nextId)
  {
  }

  lemma UpdateKeepsWellFormed(books: seq<Book>, nextId: ObjectId, id: ObjectId, title: string,
                              story: string, user: Auth.Claims)
    requires WellFormed(books, nextId)
    ensures WellFormed(Update(books, id, title, story, user).books, nextId)
  {
    var o := Update(books, id, title, story, user);
    if o.reply.Done? {
      var i := FindId(books, id).value;
      forall j, k | 0 <= j < k < |o.books| ensures o.books[j].title != o.books[k].title {
        if j == i { assert books[k].title != title; }
        else if k == i { assert books[j].title != title; }
      }
    }
  }

  lemma DeleteKeepsWellFormed(books: seq<Book>, nextId: ObjectId, id: ObjectId, user: Auth.Claims)
    requires WellFormed(books, nextId)
    ensures WellFormed(Delete(books, id, user).books, nextId)
  {
    var o := Delete(books, id, user);
    if o.reply.Done? {
      var i := FindId(books, id).value;
      var r := o.books;
      forall j | 0 <= j < |r| ensures r[j] == books[if j < i then j else j + 1] {
      }
    }
  }

  /** Re-submitting a book's own title is refused as a duplicate, even by its owner. */
  lemma UpdateKeepingTitleFails(books: seq<Book>, id: ObjectId, story: string, user: Auth.Claims)
    requires FindId(books, id).Some?
    requires books[FindId(books, id).value].userId == user.id
    requires books[FindId(books, id).value].title != "" && story != ""
    ensures var i := FindId(books, id).value;
            Update(books, id, books[i].title, story, user) == Outcome(books, Refused(DuplicateTitle))
  {
  }

  /** Publishing two books with the same title: the second is refused. */
  lemma PublishSameTitleTwice(books: seq<Book>, id1: ObjectId, id2: ObjectId, title: string,
                              s1: string, s2: string, u1: Auth.Claims, u2: Auth.Claims, t1: nat, t2: nat)
    requires title != "" && s1 != "" && s2 != ""
    ensures var first := Publish(books, id1, title, s1, u1, t1);
            Publish(first.books, id2, title, s2, u2, t2) == Outcome(first.books, Refused(DuplicateTitle))
  {
    var first := Publish(books, id1, title, s1, u1, t1);
    if first.reply.Done? {
      assert first.books[|books|].title == title;
    }
  }

  /** A successful delete leaves no book with that id in a well-formed store. */
  lemma DeleteRemovesId(books: seq<Book>, nextId: ObjectId, id: ObjectId, user: Auth.Claims)
    requires WellFormed(books, nextId)
    requires Delete(books, id, user).reply.Done?
    ensures FindId(Delete(books, id, user).books, id).None?
  {
    var i := FindId(books, id).value;
    FirstIndexRemoved(books, (b: Book) => b.id == id, i);
  }

  /** Deleting, as its author, a book that was just published restores the store. */
  lemma PublishThenDelete(books: seq<Book>, nextId: ObjectId, title: string, story: string,
                          user: Auth.Claims, now: nat)
    requires WellFormed(books, nextId)
    requires Publish(books, nextId, title, story, user, now).reply.Done?
    ensures var published := Publish(books, nextId, title, story, user, now);
            Delete(published.books, nextId, user) == Outcome(books, Done(DeletedMessage, published.reply.book))
  {
    var published := Publish(books, nextId, title, story, user, now);
    var b := published.reply.book;
    assert FindId(books, nextId).None?;
    FirstIndexAppend(books, (x: Book) => x.id == nextId, b);
    assert (books + [b])[..|books|] == books;
  }

  // ---------------------------------------------------------------------------
  // GET /new

  function PublishedAt(b: Book): int { b.published }

  // ---------------------------------------------------------------------------
  // GET /top

  /** A book as `GET /contents/new` serves it in JSON. */
  datatype BookJson = BookJson(id: string, title: string, story: string,
                               userId: string, username: string, published: string)

  /** One element of the merged list: its `_id` after the merge, the book fields at that
      position (if there was a book) and the interaction fields at that position (if there
      was a summary), which override the book's. */
  datatype Ranked = Ranked(id: string, book: Option<BookJson>, summary: Option<Interactions.Summary>)

  function Max(a: nat, b: nat): nat { if a < b then b else a }

  /** `_.merge(books, summaries)`: merges the two arrays position by position; a summary
      overrides the book's `_id`; positions beyond the shorter array come from the longer. */
  function Merge(books: seq<BookJson>, summaries: seq<Interactions.Summary>): (r: seq<Ranked>)
    ensures |r| == Max(|books|, |summaries|)
    ensures forall i :: 0 <= i < |r| ==>
              && r[i].book == (if i < |books| then Some(books[i]) else None)
              && r[i].summary == (if i < |summaries| then Some(summaries[i]) else None)
              && r[i].id == (if i < |summaries| then summaries[i].id else books[i].id)
  {
    seq(Max(|books|, |summaries|), i requires 0 <= i < Max(|books|, |summaries|) =>
      Ranked(if i < |summaries| then summaries[i].id else books[i].id,
             if i < |books| then Some(books[i]) else None,
             if i < |summaries| then Some(summaries[i]) else None))
  }

  /** The entry carries a numeric `numberOfInteractions`. */
  predicate Counted(e: Ranked) { e.summary.Some? }

  /** The ranking key; it is only consulted on counted entries. */
  function InteractionCount(e: Ranked): int
  {
    if e.summary.Some? then e.summary.value.numberOfInteractions else 0
  }

  /** Every merged entry is counted exactly when there are no more books than summaries. */
  lemma MergeCounted(books: seq<BookJson>, summaries: seq<Interactions.Summary>)
    ensures (forall i :: 0 <= i < |Merge(books, summaries)| ==> Counted(Merge(books, summaries)[i]))
        <==> |books| <= |summaries|
  {
    var m := Merge(books, summaries);
    if |books| > |summaries| {
      assert !Counted(m[|summaries|]);
    }
  }

  /** `GET /top` on the two fetched lists: the merged list sorted by the comparator
      `b.numberOfInteractions - a.numberOfInteractions`. When some entry has no count the
      comparator yields NaN and the order is the engine's; the model then gives `None`. */
  function Top(books: seq<BookJson>, summaries: seq<Interactions.Summary>): (r: Option<seq<Ranked>>)
    ensures r.Some? <==> |books| <= |summaries|
    ensures r.Some? ==> |r.value| == |summaries|
    ensures r.Some? ==> multiset(r.value) == multiset(Merge(books, summaries))
    ensures r.Some? ==> SortedDesc(r.value, InteractionCount)
    ensures r.Some? ==> forall i :: 0 <= i < |r.value| ==> Counted(r.value[i])
  {
    var merged := Merge(books, summaries);
    if |books| <= |summaries| then
      var sorted := SortDesc(merged, InteractionCount);
      assert forall i :: 0 <= i < |sorted| ==> Counted(sorted[i]) by {
        forall i | 0 <= i < |sorted| ensures Counted(sorted[i]) {
          assert sorted[i] in multiset(merged);
        }
      }
      Some(sorted)
    else None
  }

  /** Entries with the same count keep the order of the merge (the sort is stable). */
  lemma TopStable(books: seq<BookJson>, summaries: seq<Interactions.Summary>, k: int)
    requires |books| <= |summaries|
    ensures WithKey(Top(books, summaries).value, InteractionCount, k)
         == WithKey(Merge(books, summaries), InteractionCount, k)
  {
    SortDescStable(Merge(books, summaries), InteractionCount, k);
  }

  // ---------------------------------------------------------------------------
  // The books collection and its routes

  class Library {
    var books: seq<Book>
    var nextId: ObjectId

    ghost predicate Valid()
      reads this
    {
      WellFormed(books, nextId)
    }

    constructor ()
      ensures Valid() && books == []
    {
      books := [];
      nextId := 0;
    }

    /** `POST /publish` by the authenticated `user` at time `now`. */
    method PostPublish(title: string, story: string, user: Auth.Claims, now: nat) returns (reply: Reply)
      requires Valid()
      modifies this
      ensures Valid()
      ensures Outcome(books, reply) == Publish(old(books), old(nextId), title, story, user, now)
      ensures nextId == if reply.Done? then old(nextId) + 1 else old(nextId)
    {
      PublishKeepsWellFormed(books, nextId, title, story, user, now);
      var errors := BookErrors(title, story);
      if errors != [] {
        return Invalid(errors);
      }
      if TitleTaken(books, title) {
        return Refused(DuplicateTitle);
      }
      var b := Book(nextId, title, story, user.id, user.username, now);
      books := books + [b];
      nextId := nextId + 1;
      reply := Done(PublishedMessage, b);
    }

    /** `PUT /update/:id` by the authenticated `user`. */
    method PutUpdate(id: ObjectId, title: string, story: string, user: Auth.Claims) returns (reply: Reply)
      requires Valid()
      modifies this
      ensures Valid() && nextId == old(nextId)
      ensures Outcome(books, reply) == Update(old(books), id, title, story, user)
    {
      UpdateKeepsWellFormed(books, nextId, id, title, story, user);
      var errors := BookErrors(title, story);
      if errors != [] {
        return Invalid(errors);
      }
      var found := FindId(books, id);
      if found.None? {
        return Refused(BookNotFound);
      }
      var i := found.value;
      if books[i].userId != user.id {
        return Refused(NotOwner);
      }
      if TitleTaken(books, title) {
        return Refused(DuplicateTitle);
      }
      var b := books[i].(title := title, story := story);
      books := books[i := b];
      reply := Done(UpdatedMessage, b);
    }

    /** `DELETE /delete/:id` by the authenticated `user`. */
    method DeleteById(id: ObjectId, user: Auth.Claims) returns (reply: Reply)
      requires Valid()
      modifies this
      ensures Valid() && nextId == old(nextId)
      ensures Outcome(books, reply) == Delete(old(books), id, user)
    {
      DeleteKeepsWellFormed(books, nextId, id, user);
      var found := FindId(books, id);
      if found.None? {
        return Refused(BookNotFound);
      }
      var i := found.value;
      var b := books[i];
      if b.userId != user.id {
        return Refused(NotOwner);
      }
      books := books[..i] + books[i + 1..];
      reply := Done(DeletedMessage, b);
    }

    /** `GET /new`: every book, newest first. */
    method GetNew() returns (r: seq<Book>)
      ensures multiset(r) == multiset(books)
      ensures SortedDesc(r, PublishedAt)
    {
      r := SortDesc(books, PublishedAt);
    }
  }
}
