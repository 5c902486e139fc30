/** The string predicates of StringExtensions, and the few .NET string operations
    the reconciliation core relies on (EndsWith, Contains, Replace), all ordinal. */
module StringExtensions {
  import opened Wrappers
  import opened Errors

  /** char.IsWhiteSpace: the Unicode space, line and paragraph separators, plus
      U+0009 to U+000D and U+0085. */
  predicate IsWhiteSpace(c: char) {
    || c == ' '
    || ('\t' <= c <= '\r')
    || c == '\U{85}'
    || c == '\U{A0}'
    || c == '\U{1680}'
    || ('\U{2000}' <= c <= '\U{200A}')
    || c == '\U{2028}'
    || c == '\U{2029}'
    || c == '\U{202F}'
    || c == '\U{205F}'
    || c == '\U{3000}'
  }

  /** The character-by-character scan behind string.IsNullOrWhiteSpace. */
  function AllWhiteSpace(s: string): (r: bool)
    ensures r <==> forall i | 0 <= i < |s| :: IsWhiteSpace(s[i])
  {
    if s == [] then true else IsWhiteSpace(s[0]) && AllWhiteSpace(s[1..])
  }

  /** string.IsNullOrWhiteSpace, with null as None. */
  predicate IsNullOrWhiteSpace(s: Option<string>) {
    s.None? || AllWhiteSpace(s.value)
  }

  /** `None(s)`: null, empty or whitespace only. */
  function None(s: Option<string>): (r: bool)
    ensures r <==> s.None? || |s.value| == 0 || forall i | 0 <= i < |s.value| :: IsWhiteSpace(s.value[i])
  {
    IsNullOrWhiteSpace(s)
  }

  /** `None(s, d)`: the default `d` when `s` carries no text, otherwise `s`. */
  function NoneDefault(s: Option<string>, d: Option<string>): (r: Option<string>)
    ensures None(s) ==> r == d
    ensures !None(s) ==> r == s && r.Some? && exists i | 0 <= i < |r.value| :: !IsWhiteSpace(r.value[i])
  {
    if IsNullOrWhiteSpace(s) then d else s
  }

  /** `Some(s)`: the exact negation of `None(s)`. */
  function Some(s: Option<string>): (r: bool)
    ensures r <==> !None(s)
    ensures r <==> s.Some? && exists i | 0 <= i < |s.value| :: !IsWhiteSpace(s.value[i])
  {
    !IsNullOrWhiteSpace(s)
  }

  /** `Some(s, cb)`: runs the callback (when there is one) exactly when `Some(s)`.
      The callback's effect is modelled as a transformation of some state. */
  function SomeThen<S>(s: Option<string>, cb: Option<S -> S>, state: S): (r: S)
    ensures Some(s) && cb.Some? ==> r == cb.value(state)
    ensures !Some(s) || cb.None? ==> r == state
  {
    if Some(s) then
      match cb
      case Some(f) => f(state)
      case None => state
    else state
  }

  /** Ordinal string.EndsWith. */
  predicate EndsWith(s: string, suffix: string) {
    |suffix| <= |s| && s[|s| - |suffix|..] == suffix
  }

  /** `EndsWithEither(test, endings)`: some ending is a suffix of `test`. */
  function EndsWithEither(test: string, endings: seq<string>): (r: bool)
    ensures r <==> exists i | 0 <= i < |endings| :: EndsWith(test, endings[i])
    ensures endings == [] ==> !r
  {
    if endings == [] then false
    else EndsWith(test, endings[0]) || EndsWithEither(test, endings[1..])
  }

  /** `sub` occurs in `s` starting at position `i`. */
  predicate OccursAt(s: string, sub: string, i: nat) {
    i + |sub| <= |s| && s[i..i + |sub|] == sub
  }

  /** An occurrence inside `p` is still there once `q` is appended. */
  lemma OccursInPrefix(p: string, q: string, sub: string, i: nat)
    requires OccursAt(p, sub, i)
    ensures OccursAt(p + q, sub, i)
  {
  }

  /** Ordinal string.Contains. */
  function Contains(s: string, sub: string): (r: bool)
    ensures r <==> exists i: nat | i <= |s| :: OccursAt(s, sub, i)
  {
    if |s| < |sub| then
      assert forall i: nat | i <= |s| :: !OccursAt(s, sub, i);
      false
    else if s[..|sub|] == sub then
      assert OccursAt(s, sub, 0);
      true
    else
      var r := Contains(s[1..], sub);
      assert forall i: nat | 1 <= i <= |s| :: OccursAt(s, sub, i) <==> OccursAt(s[1..], sub, i - 1);
      assert r ==> exists i: nat | i <= |s| :: OccursAt(s, sub, i) by {
        if r {
          var j: nat :| j <= |s[1..]| && OccursAt(s[1..], sub, j);
          assert OccursAt(s, sub, j + 1);
        }
      }
      r
  }

  /** Ordinal string.Replace(oldValue, newValue) for a non-empty `oldValue`:
      a left-to-right scan replacing each non-overlapping occurrence. */
  function Replace(s: string, oldValue: string, newValue: string): string
    requires oldValue != []
    decreases |s|
  {
    if |s| < |oldValue| then s
    else if s[..|oldValue|] == oldValue then newValue + Replace(s[|oldValue|..], oldValue, newValue)
    else [s[0]] + Replace(s[1..], oldValue, newValue)
  }

  /** string.Replace including its argument check: an empty `oldValue` throws. */
  function StringReplace(s: string, oldValue: string, newValue: string): (r: Result<string, Error>)
    ensures oldValue == [] <==> r == Err(EmptyOldValue)
    ensures r.Ok? ==> !Contains(s, oldValue) ==> r.value == s
  {
    if oldValue == [] then Err(EmptyOldValue)
    else
      ReplaceWithoutOccurrence(s, oldValue, newValue);
      Ok(Replace(s, oldValue, newValue))
  }

  /** A string without an occurrence of `oldValue` is left unchanged. */
  lemma {:induction false} ReplaceWithoutOccurrence(s: string, oldValue: string, newValue: string)
    requires oldValue != []
    ensures !Contains(s, oldValue) ==> Replace(s, oldValue, newValue) == s
    decreases |s|
  {
    if |s| >= |oldValue| && !Contains(s, oldValue) {
      assert !OccursAt(s, oldValue, 0);
      assert !Contains(s[1..], oldValue) by {
        forall i: nat | i <= |s[1..]| ensures !OccursAt(s[1..], oldValue, i) {
          assert !OccursAt(s, oldValue, i + 1);
          if i + |oldValue| <= |s[1..]| {
            assert s[1..][i..i + |oldValue|] == s[i + 1..i + 1 + |oldValue|];
          }
        }
      }
      ReplaceWithoutOccurrence(s[1..], oldValue, newValue);
      assert s == [s[0]] + s[1..];
    }
  }

  /** Where no occurrence starts at the front, Replace keeps the first character
      and carries on with the rest. */
  lemma ReplaceSkip(s: string, oldValue: string, newValue: string)
    requires oldValue != [] && s != [] && !OccursAt(s, oldValue, 0)
    ensures Replace(s, oldValue, newValue) == [s[0]] + Replace(s[1..], oldValue, newValue)
  {
  }

  /** Replace does not stop at the first occurrence: when no occurrence starts
      inside `p`, the occurrence right after `p` is replaced and the scan goes on
      through the rest of the string. */
  lemma {:induction false} ReplaceEveryOccurrence(p: string, oldValue: string, q: string, newValue: string)
    requires oldValue != []
    requires forall i: nat | i < |p| :: !OccursAt(p + oldValue + q, oldValue, i)
    ensures Replace(p + oldValue + q, oldValue, newValue)
         == Replace(p, oldValue, newValue) + newValue + Replace(q, oldValue, newValue)
    decreases |p|
  {
    var s := p + oldValue + q;
    if p == [] {
      ReplaceAtFront(oldValue, q, newValue);
      assert s == oldValue + q;
    } else {
      NoOccurrenceShift(p, oldValue, q);
      ReplaceSkip(s, oldValue, newValue);
      ReplaceEveryOccurrence(p[1..], oldValue, q, newValue);
      ReplaceSkip(p, oldValue, newValue);
      var head, rest := [p[0]], Replace(p[1..], oldValue, newValue);
      var tail := newValue + Replace(q, oldValue, newValue);
      assert s[0] == p[0];
      assert head + (rest + tail) == (head + rest) + tail;
      assert (head + rest) + tail == Replace(p, oldValue, newValue) + newValue + Replace(q, oldValue, newValue);
    }
  }

  /** An occurrence at the front is replaced and the scan resumes after it. */
  lemma ReplaceAtFront(oldValue: string, q: string, newValue: string)
    requires oldValue != []
    ensures Replace(oldValue + q, oldValue, newValue) == newValue + Replace(q, oldValue, newValue)
  {
  }

  /** A string that is one occurrence and nothing else is replaced whole. */
  lemma ReplaceWhole(oldValue: string, newValue: string)
    requires oldValue != []
    ensures Replace(oldValue, oldValue, newValue) == newValue
  {
  }

  /** A single trailing occurrence, with none starting before it, is the only
      part replaced. */
  lemma ReplaceTrailing(p: string, oldValue: string, newValue: string)
    requires oldValue != []
    requires forall i: nat | i < |p| :: !OccursAt(p + oldValue, oldValue, i)
    ensures Replace(p + oldValue, oldValue, newValue) == p + newValue
  {
    assert p + oldValue + [] == p + oldValue;
    ReplaceEveryOccurrence(p, oldValue, [], newValue);
    assert !Contains(p, oldValue) by {
      forall i: nat | i <= |p| ensures !OccursAt(p, oldValue, i) {
        if OccursAt(p, oldValue, i) {
          OccursInPrefix(p, oldValue, oldValue, i);
        }
      }
    }
    ReplaceWithoutOccurrence(p, oldValue, newValue);
    assert p + newValue + [] == p + newValue;
  }

  /** Dropping the first character of `p` keeps `p` free of occurrences that
      start inside it, and there is none at its front. */
  lemma NoOccurrenceShift(p: string, oldValue: string, q: string)
    requires p != [] && oldValue != []
    requires forall i: nat | i < |p| :: !OccursAt(p + oldValue + q, oldValue, i)
    ensures (p + oldValue + q)[1..] == p[1..] + oldValue + q
    ensures forall i: nat | i < |p[1..]| :: !OccursAt(p[1..] + oldValue + q, oldValue, i)
    ensures !OccursAt(p + oldValue + q, oldValue, 0) && !OccursAt(p, oldValue, 0)
  {
    var s, s' := p + oldValue + q, p[1..] + oldValue + q;
    assert s[1..] == s';
    forall i: nat | i < |p[1..]| ensures !OccursAt(s', oldValue, i) {
      assert !OccursAt(s, oldValue, i + 1);
      assert s[i + 1..i + 1 + |oldValue|] == s'[i..i + |oldValue|];
    }
  }

  /** `s` with every `c` dropped, order kept: the reference for a one-character
      Replace with the empty string. */
  function Without(s: string, c: char): (r: string)
    ensures forall x :: x in r <==> x in s && x != c
  {
    if s == [] then [] else (if s[0] == c then [] else [s[0]]) + Without(s[1..], c)
  }

  /** `s.Replace("c", "")` removes exactly the occurrences of `c` and keeps the
      remaining characters in order. */
  lemma {:induction false} ReplaceCharByEmpty(s: string, c: char)
    ensures Replace(s, [c], []) == Without(s, c)
  {
    if s != [] {
      ReplaceCharByEmpty(s[1..], c);
    }
  }
}
