// Character classes, entity table and small string vocabulary of the XML engine.
// A `char` stands for one byte of the source buffer.

module Options {
  datatype Option<+T> = None | Some(value: T)
}

module XmlChars {
  import opened Options

  const NUL: char := '\0'
  const LF: char := '\n'
  const CR: char := '\r'

  /** A byte with its top bit set; never white space, always a name character. */
  predicate IsUtf8Continuation(c: char) {
    c as int >= 128
  }

  predicate IsWhiteSpace(c: char) {
    !IsUtf8Continuation(c) && (c == ' ' || 9 <= c as int <= 13)
  }

  predicate IsAlpha(c: char) {
    'a' <= c <= 'z' || 'A' <= c <= 'Z'
  }

  predicate IsDigit(c: char) {
    '0' <= c <= '9'
  }

  predicate IsNameStartChar(c: char) {
    c as int >= 128 || IsAlpha(c) || c == ':' || c == '_'
  }

  predicate IsNameChar(c: char) {
    IsNameStartChar(c) || IsDigit(c) || c == '.' || c == '-'
  }

  /** A string that can be stored NUL-terminated. */
  ghost predicate NoNul(s: string) {
    forall i :: 0 <= i < |s| ==> s[i] != NUL
  }

  /** strncmp(s + p, pattern, |pattern|) == 0 on a text that has no NUL. */
  predicate StartsWith(s: string, p: nat, pattern: string)
    requires p <= |s|
  {
    pattern <= s[p..]
  }

  datatype Entity = Entity(pattern: string, value: char)

  const ENTITIES: seq<Entity> := [
    Entity("quot", '"'), Entity("amp", '&'), Entity("apos", '\''), Entity("lt", '<'), Entity("gt", '>')]

  /** strncmp(r + 1, pattern, length) == 0 and a semicolon right behind it. */
  predicate EntityMatches(r: string, e: Entity)
    requires |r| > 0
  {
    e.pattern + ";" <= r[1..]
  }

  /** The first entity of the table, from index i on, that matches at the ampersand r[0]. */
  function EntityAt(r: string, i: nat := 0): (e: Option<Entity>)
    requires |r| > 0 && i <= |ENTITIES|
    ensures e.Some? ==> EntityMatches(r, e.value) && e.value in ENTITIES
    decreases |ENTITIES| - i
  {
    if i == |ENTITIES| then None
    else if EntityMatches(r, ENTITIES[i]) then Some(ENTITIES[i])
    else EntityAt(r, i + 1)
  }
}
