/** Types shared by every part of the model. */
module Common {

  /** Kotlin's nullable values (`Uri?`, `String?`). */
  datatype Option<+T> = None | Some(value: T)

  /** An Android content URI; the model only compares URIs for equality. */
  datatype Uri = Uri(text: string)

  /** No element occurs twice. */
  ghost predicate NoDuplicates<T>(s: seq<T>) {
    forall i, j :: 0 <= i < j < |s| ==> s[i] != s[j]
  }

  predicate StartsWith(s: string, prefix: string) {
    |prefix| <= |s| && s[..|prefix|] == prefix
  }

  predicate EndsWith(s: string, suffix: string) {
    |suffix| <= |s| && s[|s| - |suffix|..] == suffix
  }
}
