/** The extension test that decides which names are packet captures. */
module ArtifactNames {

  import opened GoText

  /** The text from the last dot of the last path component on, or nothing. */
  function Ext(s: string): string
    decreases s
  {
    if s == "" || s[|s| - 1] == '/' then ""
    else if s[|s| - 1] == '.' then "."
    else
      var e := Ext(s[..|s| - 1]);
      if e == "" then "" else e + [s[|s| - 1]]
  }

  lemma ExtStep(s: string, c: char)
    requires c != '.' && c != '/'
    ensures Ext(s + [c]) == if Ext(s) == "" then "" else Ext(s) + [c]
  {
    assert (s + [c])[..|s|] == s;
  }

  lemma {:induction false} ExtGrows(s: string, b: string)
    requires '.' !in b && '/' !in b
    ensures Ext(s + b) == if Ext(s) == "" then "" else Ext(s) + b
    decreases |b|
  {
    if b == "" {
      assert s + b == s && Ext(s) + b == Ext(s);
    } else {
      var init, last := b[..|b| - 1], b[|b| - 1];
      assert last in b;
      ExtGrows(s, init);
      ExtStep(s + init, last);
      assert s + b == s + init + [last] && Ext(s) + b == Ext(s) + init + [last];
    }
  }

  /** The extension starts at the last dot of the last component, also when the name starts with it; a last
      component without a dot has none. */
  lemma ExtExact(a: string, b: string)
    requires '.' !in b && '/' !in b
    ensures Ext(a + "." + b) == "." + b
    ensures a == "" || a[|a| - 1] == '/' ==> Ext(a + b) == ""
  {
    assert Ext(a + ".") == ".";
    ExtGrows(a + ".", b);
    ExtGrows(a, b);
  }

  predicate IsPcapName(s: string) {
    ToLower(Ext(s)) == ".pcap" || ToLower(Ext(s)) == ".pcapng"
  }
}
