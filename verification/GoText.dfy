/** Trimming and letter case on ASCII text. */
module GoText {

  /** The ASCII characters that trimming removes. */
  predicate IsTrimmed(c: char) {
    c == ' ' || '\t' <= c <= '\r'
  }

  function TrimLeft(s: string): string {
    if s != "" && IsTrimmed(s[0]) then TrimLeft(s[1..]) else s
  }

  function TrimRight(s: string): string {
    if s != "" && IsTrimmed(s[|s| - 1]) then TrimRight(s[..|s| - 1]) else s
  }

  function TrimSpace(s: string): string {
    TrimRight(TrimLeft(s))
  }

  function ToLower(s: string): string {
    if s == "" then "" else [if 'A' <= s[0] <= 'Z' then s[0] + 32 as char else s[0]] + ToLower(s[1..])
  }

  function ToUpper(s: string): string {
    if s == "" then "" else [if 'a' <= s[0] <= 'z' then s[0] - 32 as char else s[0]] + ToUpper(s[1..])
  }

  predicate Contains(s: string, part: string) {
    part <= s || (s != "" && Contains(s[1..], part))
  }

  /** What trimming leaves, as a slice. */
  lemma {:induction false} TrimLeftSlice(s: string) returns (k: nat)
    ensures k <= |s| && TrimLeft(s) == s[k..] && forall i | 0 <= i < k :: IsTrimmed(s[i])
  {
    if s != "" && IsTrimmed(s[0]) {
      k := TrimLeftSlice(s[1..]);
      k := k + 1;
    } else {
      k := 0;
    }
  }

  lemma {:induction false} TrimRightSlice(s: string) returns (e: nat)
    ensures e <= |s| && TrimRight(s) == s[..e] && (forall i | e <= i < |s| :: IsTrimmed(s[i]))
    ensures e > 0 ==> !IsTrimmed(s[e - 1])
  {
    if s != "" && IsTrimmed(s[|s| - 1]) {
      e := TrimRightSlice(s[..|s| - 1]);
      assert s[..|s| - 1][..e] == s[..e];
    } else {
      e := |s|;
    }
  }

  /** A text that neither starts nor ends with white space is left alone. */
  lemma TrimNothing(s: string)
    requires s == "" || (!IsTrimmed(s[0]) && !IsTrimmed(s[|s| - 1]))
    ensures TrimSpace(s) == s
  {
  }
}
