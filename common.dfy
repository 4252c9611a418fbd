/** Shared vocabulary of the three route modules: optional values, database identifiers,
    the validation error records the request validator produces, and first-match lookup
    in a store kept in its native (insertion) order. */
module Common {

  datatype Option<T> = None | Some(value: T)

  /** A document identifier assigned by the database when a document is first saved. */
  type ObjectId = nat

  /** One element of the validator's error array: the offending body field and its message. */
  datatype FieldError = FieldError(param: string, msg: string)

  /** The message the validator reports for a check that carries no custom message. */
  const DefaultMessage := "Invalid value"

  /** A field guarded by `not().isEmpty()`: it fails exactly when its value is the empty
      string (a field that is absent from the body reads as empty). */
  function Required(param: string, value: string, msg: string): (r: seq<FieldError>)
    ensures r == [] <==> value != ""
    ensures r != [] ==> r == [FieldError(param, msg)]
  {
    if value == "" then [FieldError(param, msg)] else []
  }

  /** A field guarded by an arbitrary boolean check. */
  function Check(param: string, ok: bool, msg: string): (r: seq<FieldError>)
    ensures r == [] <==> ok
    ensures r != [] ==> r == [FieldError(param, msg)]
  {
    if ok then [] else [FieldError(param, msg)]
  }

  /** `findOne`: the position of the first document that matches, in store order. */
  function FirstIndex<T>(s: seq<T>, p: T -> bool): (r: Option<nat>)
    ensures r.Some? ==> r.value < |s| && p(s[r.value])
    ensures r.Some? ==> forall j :: 0 <= j < r.value ==> !p(s[j])
    ensures r.None? <==> forall j :: 0 <= j < |s| ==> !p(s[j])
  {
    if s == [] then None
    else if p(s[0]) then Some(0)
    else match FirstIndex(s[1..], p)
      case None => None
      case Some(k) => Some(k + 1)
  }

  /** Appending a matching document to a store where nothing matched makes it the match. */
  lemma FirstIndexAppend<T>(s: seq<T>, p: T -> bool, x: T)
    requires FirstIndex(s, p).None? && p(x)
    ensures FirstIndex(s + [x], p) == Some(|s|)
  {
    forall j | 0 <= j < |s| ensures !p((s + [x])[j]) {
      assert (s + [x])[j] == s[j];
    }
    FirstIndexAt(s + [x], p, |s|);
  }

  /** Appending a document leaves an existing match where it was. */
  lemma FirstIndexAppendKeeps<T>(s: seq<T>, p: T -> bool, x: T)
    requires FirstIndex(s, p).Some?
    ensures FirstIndex(s + [x], p) == FirstIndex(s, p)
  {
    var i := FirstIndex(s, p).value;
    forall j | 0 <= j <= i ensures (s + [x])[j] == s[j] {
    }
    FirstIndexAt(s + [x], p, i);
  }

  /** Replacing the matched document by another that still matches keeps the match. */
  lemma FirstIndexUpdate<T>(s: seq<T>, p: T -> bool, i: nat, x: T)
    requires FirstIndex(s, p) == Some(i) && p(x)
    ensures FirstIndex(s[i := x], p) == Some(i)
  {
    forall j | 0 <= j < i ensures s[i := x][j] == s[j] {
    }
    FirstIndexAt(s[i := x], p, i);
  }

  /** The document at a position is the match when it matches and no earlier one does. */
  lemma FirstIndexAt<T>(s: seq<T>, p: T -> bool, i: nat)
    requires i < |s| && p(s[i])
    requires forall j :: 0 <= j < i ==> !p(s[j])
    ensures FirstIndex(s, p) == Some(i)
  {
  }

  /** Removing the matched document from a store whose documents match at most once leaves
      nothing that matches. */
  lemma FirstIndexRemoved<T>(s: seq<T>, p: T -> bool, i: nat)
    requires FirstIndex(s, p) == Some(i)
    requires forall j :: 0 <= j < |s| && j != i ==> !p(s[j])
    ensures FirstIndex(s[..i] + s[i + 1..], p).None?
  {
    var t := s[..i] + s[i + 1..];
    forall j | 0 <= j < |t| ensures !p(t[j]) {
      if j < i { assert t[j] == s[j]; } else { assert t[j] == s[j + 1]; }
    }
  }
}
