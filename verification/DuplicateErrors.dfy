/** Sorting the errors of a unit by their messages, and removing those that are reported twice. */
module DuplicateErrors {

  import FixConflicts
  import opened StringOrder
  import opened Ordering

  type TidyError = FixConflicts.Error

  predicate MessageLess(a: FixConflicts.Message, b: FixConflicts.Message) {
    StringLess(a.path, b.path) ||
    (a.path == b.path && (a.offset < b.offset || (a.offset == b.offset && StringLess(a.text, b.text))))
  }

  lemma MessageLessIsTotal(a: FixConflicts.Message, b: FixConflicts.Message)
    ensures MessageLess(a, b) || MessageLess(b, a) || a == b
    ensures !(MessageLess(a, b) && MessageLess(b, a)) && !MessageLess(a, a)
  {
    StringLessIsTotal(a.path, b.path);
    StringLessIsTotal(a.text, b.text);
    StringLessIsTotal(a.path, a.path);
    StringLessIsTotal(a.text, a.text);
  }

  lemma MessageLessIsTransitive(a: FixConflicts.Message, b: FixConflicts.Message, c: FixConflicts.Message)
    requires !MessageLess(b, a) && !MessageLess(c, b)
    ensures !MessageLess(c, a)
  {
    MessageLessIsTotal(a, b);
    MessageLessIsTotal(b, c);
    MessageLessIsTotal(a, c);
    if MessageLess(a, b) && MessageLess(b, c) {
      if StringLess(a.path, b.path) && StringLess(b.path, c.path) {
        StringLessIsTransitive(a.path, b.path, c.path);
      } else if a.path == b.path == c.path && a.offset == b.offset == c.offset {
        StringLessIsTransitive(a.text, b.text, c.text);
      }
      assert MessageLess(a, c);
    }
  }

  predicate SortedErrors(errors: seq<TidyError>) {
    forall p, q :: 0 <= p < q < |errors| ==> !MessageLess(errors[q].message, errors[p].message)
  }

  predicate Reported(m: FixConflicts.Message, errors: seq<TidyError>) {
    exists n :: 0 <= n < |errors| && errors[n].message == m
  }

  /** Strictly ascending, without new errors, and with every message that was there. */
  ghost predicate Deduplicated(errors: seq<TidyError>, kept: seq<TidyError>) {
    && (forall p, q :: 0 <= p < q < |kept| ==> MessageLess(kept[p].message, kept[q].message))
    && (forall e <- kept :: e in errors)
    && (forall e <- errors :: Reported(e.message, kept))
  }

  predicate ErrorLess(a: TidyError, b: TidyError) {
    MessageLess(a.message, b.message)
  }

  lemma NoneBelow(errors: seq<TidyError>, n: nat, e: TidyError)
    requires SortedErrors(errors) && n < |errors| && ErrorLess(e, errors[n])
    ensures forall p :: n <= p < |errors| ==> !ErrorLess(errors[p], e)
  {
    hide MessageLess;
    forall p | n <= p < |errors|
      ensures !ErrorLess(errors[p], e)
    {
      MessageLessIsTotal(e.message, errors[n].message);
      MessageLessIsTotal(errors[n].message, errors[n].message);
      MessageLessIsTransitive(e.message, errors[n].message, errors[p].message);
    }
  }

  lemma Inserted(errors: seq<TidyError>, n: nat, e: TidyError)
    requires SortedErrors(errors) && n <= |errors|
    requires forall p :: 0 <= p < n ==> !ErrorLess(e, errors[p])
    requires forall p :: n <= p < |errors| ==> !ErrorLess(errors[p], e)
    ensures SortedErrors(errors[..n] + [e] + errors[n..])
    ensures multiset(errors[..n] + [e] + errors[n..]) == multiset(errors) + multiset{e}
  {
    hide MessageLess;
    assert errors == errors[..n] + errors[n..];
  }

  lemma NothingToSort()
    ensures SortedErrors([])
  {
  }

  method SortErrors(errors: seq<TidyError>) returns (r: seq<TidyError>)
    ensures SortedErrors(r)
    ensures multiset(r) == multiset(errors)
  {
    hide MessageLess, SortedErrors, PlaceFor, ErrorLess;
    r := [];
    NothingToSort();
    for n := 0 to |errors|
      invariant SortedErrors(r)
      invariant multiset(r) == multiset(errors[..n])
    {
      var place := PlaceFor(errors[n], r, ErrorLess);
      if place < |r| {
        NoneBelow(r, place, errors[n]);
      }
      Inserted(r, place, errors[n]);
      assert errors[..n + 1] == errors[..n] + [errors[n]];
      r := r[..place] + [errors[n]] + r[place..];
    }
    assert errors[..|errors|] == errors;
  }

  lemma DuplicateNext(errors: seq<TidyError>, kept: seq<TidyError>, e: TidyError)
    requires Deduplicated(errors, kept) && Reported(e.message, kept)
    ensures Deduplicated(errors + [e], kept)
  {
  }

  lemma NewNext(errors: seq<TidyError>, kept: seq<TidyError>, e: TidyError)
    requires Deduplicated(errors, kept)
    requires kept == [] || MessageLess(kept[|kept| - 1].message, e.message)
    ensures Deduplicated(errors + [e], kept + [e])
  {
    forall p | 0 <= p < |kept|
      ensures MessageLess(kept[p].message, e.message)
    {
      MessageLessIsTotal(kept[p].message, kept[|kept| - 1].message);
      MessageLessIsTotal(kept[|kept| - 1].message, e.message);
      if !MessageLess(kept[p].message, e.message) {
        MessageLessIsTransitive(e.message, kept[p].message, kept[|kept| - 1].message);
      }
    }
    hide MessageLess;
    forall f | f in errors + [e]
      ensures Reported(f.message, kept + [e])
    {
      if f in errors {
        var n :| 0 <= n < |kept| && kept[n].message == f.message;
        assert (kept + [e])[n].message == f.message;
      } else {
        assert (kept + [e])[|kept|].message == f.message;
      }
    }
  }

  /** Keeps the first of several errors with equal messages. */
  method RemoveDuplicates(ghost errors: seq<TidyError>, sorted: seq<TidyError>) returns (r: seq<TidyError>)
    requires SortedErrors(sorted) && multiset(sorted) == multiset(errors)
    ensures Deduplicated(errors, r)
  {
    r := [];
    assert Deduplicated(sorted[..0], r);
    hide MessageLess, Deduplicated;
    for n := 0 to |sorted|
      invariant Deduplicated(sorted[..n], r)
      invariant if n == 0 then r == [] else r != [] && r[|r| - 1].message == sorted[n - 1].message
    {
      assert sorted[..n] + [sorted[n]] == sorted[..n + 1];
      if n == 0 || sorted[n].message != r[|r| - 1].message {
        if n > 0 {
          MessageLessIsTotal(sorted[n - 1].message, sorted[n].message);
        }
        NewNext(sorted[..n], r, sorted[n]);
        r := r + [sorted[n]];
      } else {
        DuplicateNext(sorted[..n], r, sorted[n]);
      }
    }
    assert sorted[..|sorted|] == sorted;
    SameErrors(errors, sorted, r);
  }

  lemma SameErrors(errors: seq<TidyError>, sorted: seq<TidyError>, kept: seq<TidyError>)
    requires multiset(sorted) == multiset(errors) && Deduplicated(sorted, kept)
    ensures Deduplicated(errors, kept)
  {
    forall e: TidyError
      ensures e in sorted <==> e in errors
    {
      assert e in multiset(sorted) <==> e in multiset(errors);
    }
  }

  lemma KeptAreRepresentable(errors: seq<TidyError>, kept: seq<TidyError>)
    requires FixConflicts.Representable(errors) && Deduplicated(errors, kept)
    ensures FixConflicts.Representable(kept)
  {
  }
}
