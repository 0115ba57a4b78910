/**
 * The few JavaScript values and operators the extension's decision logic relies on:
 * truthiness (`||`, `if`), loose equality with `null`, string coercion of a
 * property read and `String.prototype.includes`.
 */
module JsValues {

  datatype Option<+T> = None | Some(value: T)

  /** A setting or a customization entry as JavaScript sees it. Numbers, arrays and
      objects are not represented. */
  datatype Value = Undefined | Null | Bool(b: bool) | Str(s: string)

  /** JavaScript truthiness: `undefined`, `null`, `false` and `""` are falsy. */
  predicate Truthy(v: Value) {
    match v
    case Undefined => false
    case Null => false
    case Bool(b) => b
    case Str(s) => s != ""
  }

  /** `v == null` under loose equality: holds for `null` and for `undefined`. */
  predicate IsNullish(v: Value) {
    v.Null? || v.Undefined?
  }

  /** `String(v)` for a property read that may be missing: a missing property is
      `undefined`, which a regular expression test coerces to the text "undefined". */
  function PropertyText(obj: map<string, string>, key: string): string {
    if key in obj then obj[key] else "undefined"
  }

  predicate StartsWith(s: string, prefix: string) {
    |prefix| <= |s| && s[..|prefix|] == prefix
  }

  /** `s.includes(t)`, computed by scanning from the left. */
  predicate Includes(s: string, t: string)
    decreases |s|
  {
    StartsWith(s, t) || (s != [] && Includes(s[1..], t))
  }

  /** `t` occurs in `s` starting at index `i`. */
  ghost predicate OccursAt(s: string, t: string, i: int) {
    0 <= i && i + |t| <= |s| && s[i..i + |t|] == t
  }

  /** The scan agrees with the textbook definition of a substring. */
  lemma {:induction false} IncludesIff(s: string, t: string)
    ensures Includes(s, t) <==> exists i :: OccursAt(s, t, i)
    decreases |s|
  {
    if StartsWith(s, t) {
      assert OccursAt(s, t, 0);
    } else if s != [] {
      IncludesIff(s[1..], t);
      forall i | OccursAt(s, t, i)
        ensures OccursAt(s[1..], t, i - 1)
      {
        assert s[1..][i - 1..i - 1 + |t|] == s[i..i + |t|];
      }
      forall i | OccursAt(s[1..], t, i)
        ensures OccursAt(s, t, i + 1)
      {
        assert s[1..][i..i + |t|] == s[i + 1..i + 1 + |t|];
      }
    }
  }
}
