/** Optional values and qualified names. */
module Names {
  datatype Option<T> = None | Some(value: T)

  /** `::` occurs in the text. */
  predicate HasColons(s: string) {
    |s| >= 2 && (s[..2] == "::" || HasColons(s[1..]))
  }

  lemma {:induction false} ColonsAt(s: string, i: nat)
    requires i + 2 <= |s| && s[i..i + 2] == "::"
    ensures HasColons(s)
  {
    if i > 0 {
      assert s[1..][i - 1..i + 1] == s[i..i + 2];
      ColonsAt(s[1..], i - 1);
    }
  }
}
