/**
 * What the validated properties of `Author`, `Magazine` and `Article` store
 * after an assignment, as functions of the value stored before and the value
 * assigned. Python's `isinstance(value, str)` tests are modelled by `Value`.
 */
module Fields {
  import opened Wrappers

  /** A value handed to a string-typed property: a string, or anything that is not a string. */
  datatype Value = Str(s: string) | NonStr

  /** `Article` accepts a title that is a string of 5 to 50 characters. */
  predicate IsTitle(v: Value) {
    v.Str? && 5 <= |v.s| <= 50
  }

  /** `Author` accepts a name that is a non-empty string. */
  predicate IsAuthorName(v: Value) {
    v.Str? && |v.s| > 0
  }

  /** The title an `Article` stores at construction: `None` unless the title is accepted. */
  function InitialTitle(v: Value): (r: Option<string>)
    ensures r.Some? <==> v.Str? && 5 <= |v.s| <= 50
    ensures r.Some? ==> r.value == v.s
  {
    if IsTitle(v) then Some(v.s) else None
  }

  // ---------------------------------------------------------------------------
  // Author.name: write-once. `None` means the attribute `_name` does not exist.

  /** `_name` after one assignment (the constructor's or the setter's). */
  function AuthorNameAfter(current: Option<string>, value: Value): Option<string> {
    if current.Some? then current
    else if IsAuthorName(value) then Some(value.s)
    else None
  }

  /** `_name` after the assignments in `values`, one after the other. */
  function AuthorNameAfterAll(current: Option<string>, values: seq<Value>): Option<string>
    decreases |values|
  {
    if values == [] then current
    else AuthorNameAfterAll(AuthorNameAfter(current, values[0]), values[1..])
  }

  /** Once an author has a name, no assignment, accepted or not, changes it. */
  lemma {:induction false} AuthorNameWriteOnce(name: string, values: seq<Value>)
    ensures AuthorNameAfterAll(Some(name), values) == Some(name)
  {
    if values != [] {
      AuthorNameWriteOnce(name, values[1..]);
    }
  }

  /** values[k] is the first non-empty string in values. */
  predicate FirstAuthorName(values: seq<Value>, k: int) {
    && 0 <= k < |values|
    && IsAuthorName(values[k])
    && forall j :: 0 <= j < k ==> !IsAuthorName(values[j])
  }

  /**
   * Starting from an author without a name, the name is the FIRST non-empty
   * string assigned; if none was assigned, the author still has no name.
   */
  lemma {:induction false} AuthorNameIsFirstAccepted(values: seq<Value>)
    ensures (forall k :: 0 <= k < |values| ==> !IsAuthorName(values[k])) ==> AuthorNameAfterAll(None, values) == None
    ensures forall k :: FirstAuthorName(values, k) ==> AuthorNameAfterAll(None, values) == Some(values[k].s)
  {
    if values != [] {
      if IsAuthorName(values[0]) {
        AuthorNameWriteOnce(values[0].s, values[1..]);
      } else {
        var tail := values[1..];
        AuthorNameIsFirstAccepted(tail);
        forall k | FirstAuthorName(values, k)
          ensures AuthorNameAfterAll(None, values) == Some(values[k].s)
        {
          assert tail[k - 1] == values[k];
          assert FirstAuthorName(tail, k - 1) by {
            forall j | 0 <= j < k - 1 ensures !IsAuthorName(tail[j]) {
              assert tail[j] == values[j + 1];
            }
          }
        }
        forall k | 0 <= k < |tail| ensures tail[k] == values[k + 1] { }
      }
    }
  }

  // ---------------------------------------------------------------------------
  // Magazine.name and Magazine.category: revalidated on every assignment.

  /** The two revalidated properties of `Magazine`. */
  datatype Rule = MagazineName | Category

  /** A magazine name is a string of 2 to 16 characters; a category a non-empty string. */
  predicate Accepts(rule: Rule, v: Value) {
    v.Str? &&
    match rule
    case MagazineName => 2 <= |v.s| <= 16
    case Category => |v.s| > 0
  }

  /** What a first, rejected assignment stores: the string itself, or "" for a non-string. */
  function Fallback(v: Value): string {
    if v.Str? then v.s else ""
  }

  /**
   * The property after one assignment. `current` is `None` only for the first
   * assignment, made by the constructor, when the attribute does not exist yet.
   */
  function Revalidated(rule: Rule, current: Option<string>, value: Value): string {
    if Accepts(rule, value) then value.s
    else if current.Some? then current.value
    else Fallback(value)
  }

  /** The property after the constructor assigned `first` and the setter then assigned `rest`. */
  function RevalidatedAll(rule: Rule, first: Value, rest: seq<Value>): string {
    if rest == [] then Revalidated(rule, None, first)
    else Revalidated(rule, Some(RevalidatedAll(rule, first, rest[..|rest| - 1])), rest[|rest| - 1])
  }

  /** No value in vs is accepted. */
  predicate NoneAccepted(rule: Rule, vs: seq<Value>) {
    forall k :: 0 <= k < |vs| ==> !Accepts(rule, vs[k])
  }

  /** vs[k] is the last accepted value in vs. */
  predicate LastAccepted(rule: Rule, vs: seq<Value>, k: int) {
    && 0 <= k < |vs|
    && Accepts(rule, vs[k])
    && forall j :: k < j < |vs| ==> !Accepts(rule, vs[j])
  }

  /** When no value assigned was ever accepted, the property holds the fallback of the constructor's value. */
  lemma {:induction false} RevalidatedNoneAccepted(rule: Rule, first: Value, rest: seq<Value>)
    requires NoneAccepted(rule, [first] + rest)
    ensures RevalidatedAll(rule, first, rest) == Fallback(first)
  {
    if rest != [] {
      var p := rest[..|rest| - 1];
      var vs, ps := [first] + rest, [first] + p;
      assert vs == ps + [rest[|rest| - 1]];
      assert !Accepts(rule, vs[|ps|]);
      assert NoneAccepted(rule, ps) by {
        forall k | 0 <= k < |ps| ensures !Accepts(rule, ps[k]) {
          assert ps[k] == vs[k];
        }
      }
      RevalidatedNoneAccepted(rule, first, p);
    }
  }

  /** The property holds the LAST accepted value assigned. */
  lemma {:induction false} RevalidatedIsLastAccepted(rule: Rule, first: Value, rest: seq<Value>, k: nat)
    requires LastAccepted(rule, [first] + rest, k)
    ensures RevalidatedAll(rule, first, rest) == ([first] + rest)[k].s
  {
    var vs := [first] + rest;
    if k < |rest| {
      var p := rest[..|rest| - 1];
      var ps := [first] + p;
      assert vs == ps + [rest[|rest| - 1]];
      assert !Accepts(rule, vs[|ps|]);
      assert ps[k] == vs[k];
      assert LastAccepted(rule, ps, k) by {
        forall j | k < j < |ps| ensures !Accepts(rule, ps[j]) {
          assert ps[j] == vs[j];
        }
      }
      RevalidatedIsLastAccepted(rule, first, p, k);
    }
  }

  /** A property that starts out valid stays valid, whatever is assigned later. */
  lemma {:induction false} RevalidatedStaysAccepted(rule: Rule, first: Value, rest: seq<Value>)
    requires Accepts(rule, first)
    ensures Accepts(rule, Str(RevalidatedAll(rule, first, rest)))
  {
    if rest != [] {
      RevalidatedStaysAccepted(rule, first, rest[..|rest| - 1]);
    }
  }
}
