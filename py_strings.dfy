/**
 The Python string builtins that the hash-function revisions rely on:
 `str(key)`, `repr(key)` and `text.lstrip("'")`, for the two kinds of key the
 script hashes (strings and booleans).
 */
module PyStrings {

  datatype Option<T> = None | Some(value: T)

  /** A key handed to `hash_function`: a string, or a boolean such as `True`. */
  datatype Key = Text(s: string) | Flag(b: bool)

  /** The apostrophe that `repr` puts around a string. */
  const Quote: char := '\''

  /** A character that `repr` copies verbatim between the apostrophes:
      printable ASCII other than the apostrophe and the backslash. */
  predicate PlainChar(c: char) {
    ' ' <= c <= '~' && c != Quote && c != '\\'
  }

  predicate PlainText(s: string) {
    forall i :: 0 <= i < |s| ==> PlainChar(s[i])
  }

  /** The keys whose `repr` this model knows: booleans, and strings that need no escaping. */
  predicate HasPlainRepr(k: Key) {
    k.Text? ==> PlainText(k.s)
  }

  function BoolName(b: bool): string {
    if b then "True" else "False"
  }

  /** `str(key)`: the identity on strings, the literal name on booleans. */
  function Str(k: Key): string {
    match k
    case Text(s) => s
    case Flag(b) => BoolName(b)
  }

  /** Reading back a literal as Python's `eval` would, for the literals `Repr` produces. */
  function EvalLiteral(r: string): Option<Key> {
    if r == "True" then Some(Flag(true))
    else if r == "False" then Some(Flag(false))
    else if 2 <= |r| && r[0] == Quote && r[|r| - 1] == Quote && PlainText(r[1..|r| - 1]) then
      Some(Text(r[1..|r| - 1]))
    else None
  }

  /** `repr(key)`: a string between apostrophes, a boolean by its name. */
  function Repr(k: Key): string
    requires HasPlainRepr(k)
  {
    match k
    case Text(s) => [Quote] + s + [Quote]
    case Flag(b) => BoolName(b)
  }

  /** Unlike `Str`, `Repr` tells the string "True" apart from the boolean `True`:
      the literal it produces reads back as exactly the key. */
  lemma ReprRoundTrip(k: Key)
    requires HasPlainRepr(k)
    ensures EvalLiteral(Repr(k)) == Some(k)
  {
    if k.Text? {
      var r := Repr(k);
      assert r[0] == Quote && r[1..|r| - 1] == k.s;
    }
  }

  /** `s.lstrip(c)` for a single character `c`: drops every leading `c`.
      The result is the suffix of `s` that is left once the run of leading `c`
      is gone, so it never starts with `c`. */
  function LStrip(s: string, c: char): (r: string)
    ensures |r| <= |s| && r == s[|s| - |r|..]
    ensures r == [] || r[0] != c
    ensures forall i :: 0 <= i < |s| - |r| ==> s[i] == c
  {
    if s != [] && s[0] == c then LStrip(s[1..], c) else s
  }

  /** Stripping twice strips no more than stripping once. */
  lemma LStripIdempotent(s: string, c: char)
    ensures LStrip(LStrip(s, c), c) == LStrip(s, c)
  {
  }

  /** `str` cannot tell the string "True" from the boolean `True`; `repr` can. */
  lemma StrConflatesReprSeparates()
    ensures Str(Text("True")) == Str(Flag(true))
    ensures Repr(Text("True")) != Repr(Flag(true))
  {
    assert Repr(Text("True"))[0] == Quote;
  }
}
