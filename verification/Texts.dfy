/** White space and encoded lengths of strings. */
module Texts {

  /** The characters strings.TrimSpace removes. */
  predicate IsSpace(c: char) {
    || '\t' <= c <= '\r'
    || c in {' ', '\U{0085}', '\U{00A0}', '\U{1680}', '\U{2028}', '\U{2029}', '\U{202F}', '\U{205F}', '\U{3000}'}
    || '\U{2000}' <= c <= '\U{200A}'
  }

  predicate AllSpace(s: string) {
    forall c :: c in s ==> IsSpace(c)
  }

  function Trim(s: string): string {
    if s != "" && IsSpace(s[0]) then Trim(s[1..])
    else if s != "" && IsSpace(s[|s| - 1]) then Trim(s[..|s| - 1])
    else s
  }

  /** The length of a string in UTF-8. */
  function ByteLength(s: string): nat {
    if s == "" then 0 else
      (if s[0] < '\U{0080}' then 1 else if s[0] < '\U{0800}' then 2 else if s[0] < '\U{10000}' then 3 else 4) +
      ByteLength(s[1..])
  }

  /** The white space of Unicode, one by one. */
  lemma SpacesListed(c: char)
    ensures IsSpace(c) <==> c in "\t\n\U{000B}\U{000C}\r \U{0085}\U{00A0}\U{1680}\U{2000}\U{2001}\U{2002}\U{2003}" +
                                "\U{2004}\U{2005}\U{2006}\U{2007}\U{2008}\U{2009}\U{200A}\U{2028}\U{2029}\U{202F}" +
                                "\U{205F}\U{3000}"
  {
  }

  /** The part from i to j is what trimming leaves. */
  predicate Margins(s: string, trimmed: string, i: nat, j: nat) {
    && i <= j <= |s| && trimmed == s[i..j] && AllSpace(s[..i]) && AllSpace(s[j..])
    && (i < j ==> !IsSpace(s[i]) && !IsSpace(s[j - 1]))
  }

  lemma SpaceBefore(s: string, trimmed: string, i: nat, j: nat)
    requires s != "" && IsSpace(s[0]) && Margins(s[1..], trimmed, i, j)
    ensures Margins(s, trimmed, i + 1, j + 1)
  {
    assert s[1..][i..j] == s[i + 1..j + 1] && s[1..][j..] == s[j + 1..];
    assert s[..i + 1] == [s[0]] + s[1..][..i];
  }

  lemma SpaceBehind(s: string, trimmed: string, i: nat, j: nat)
    requires s != "" && IsSpace(s[|s| - 1]) && Margins(s[..|s| - 1], trimmed, i, j)
    ensures Margins(s, trimmed, i, j)
  {
    var n := |s| - 1;
    assert s[..n][i..j] == s[i..j] && s[..n][..i] == s[..i];
    assert s[j..] == s[..n][j..] + [s[n]];
  }

  /** Trimming takes white space off both ends and stops at what is not white space. */
  lemma {:induction false} TrimTakesMargins(s: string) returns (i: nat, j: nat)
    ensures Margins(s, Trim(s), i, j)
  {
    if s != "" && IsSpace(s[0]) {
      i, j := TrimTakesMargins(s[1..]);
      SpaceBefore(s, Trim(s), i, j);
      i, j := i + 1, j + 1;
    } else if s != "" && IsSpace(s[|s| - 1]) {
      i, j := TrimTakesMargins(s[..|s| - 1]);
      SpaceBehind(s, Trim(s), i, j);
    } else {
      i, j := 0, |s|;
    }
  }

  /** How many characters of the string are this high or higher. */
  function CountFrom(s: string, low: char): nat {
    if s == "" then 0 else CountFrom(s[..|s| - 1], low) + if s[|s| - 1] >= low then 1 else 0
  }

  lemma {:induction false} CountOfFirst(s: string, low: char)
    requires s != ""
    ensures CountFrom(s, low) == (if s[0] >= low then 1 else 0) + CountFrom(s[1..], low)
  {
    if |s| > 1 {
      CountOfFirst(s[..|s| - 1], low);
      assert s[..|s| - 1][1..] == s[1..][..|s| - 2];
    }
  }

  /** One byte for each character, and one more from each of U+0080, U+0800 and U+10000 on. */
  lemma {:induction false} ByteLengthIs(s: string)
    ensures ByteLength(s) ==
            |s| + CountFrom(s, '\U{0080}') + CountFrom(s, '\U{0800}') + CountFrom(s, '\U{10000}')
  {
    if s != "" {
      ByteLengthIs(s[1..]);
      CountOfFirst(s, '\U{0080}');
      CountOfFirst(s, '\U{0800}');
      CountOfFirst(s, '\U{10000}');
    }
  }
}
