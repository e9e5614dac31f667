/** The two PHP string operations the controllers rely on: `strtolower` and `empty`. */
module Text {
  import opened Wrappers

  predicate IsUpper(c: char) { 'A' <= c <= 'Z' }

  /** No character of `s` is an ASCII capital. */
  predicate IsLowerCase(s: string) {
    forall i :: 0 <= i < |s| ==> !IsUpper(s[i])
  }

  /** `strtolower` on one character: ASCII letters only (PHP 8.2 and later). */
  function LowerChar(c: char): (r: char)
    ensures !IsUpper(r)
    ensures 'a' <= r <= 'z' ==> r == c || r as int == c as int + 32
    ensures !('a' <= r <= 'z') ==> r == c
  {
    if IsUpper(c) then (c as int + 32) as char else c
  }

  /** `strtolower`: maps every ASCII capital to its small letter and keeps everything else. */
  function Lower(s: string): (r: string)
    ensures |r| == |s|
    ensures IsLowerCase(r)
    ensures forall i :: 0 <= i < |s| ==> r[i] == LowerChar(s[i])
  {
    if s == [] then [] else [LowerChar(s[0])] + Lower(s[1..])
  }

  /** Lower-casing is idempotent, so an email stored lower-cased is found again by its lower-cased form. */
  lemma {:induction false} LowerIdempotent(s: string)
    ensures Lower(Lower(s)) == Lower(s)
  {
    LowerKeepsLowerCase(Lower(s));
  }

  /** A string without capitals is its own lower-cased form. */
  lemma {:induction false} LowerKeepsLowerCase(s: string)
    requires IsLowerCase(s)
    ensures Lower(s) == s
  {
    if s != [] {
      assert !IsUpper(s[0]);
      assert IsLowerCase(s[1..]) by {
        forall i | 0 <= i < |s[1..]| ensures !IsUpper(s[1..][i]) {
          assert s[1..][i] == s[i + 1];
        }
      }
      LowerKeepsLowerCase(s[1..]);
    }
  }

  /** PHP `empty()` on a string: only "" and "0" are empty. */
  predicate IsEmptyInput(s: string) { s == "" || s == "0" }

  /** A request field that is present and not `empty()`: `$request->has(f) && !empty($request->f)`. */
  predicate Filled(f: Option<string>) { f.Some? && !IsEmptyInput(f.value) }

  /** `isset($request->f) ? $request->f : ''`. */
  function OrEmpty(f: Option<string>): string { f.GetOr("") }
}
