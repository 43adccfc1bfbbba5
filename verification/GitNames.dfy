/** Identifiers, commit hashes and references as the git bridge accepts them. */
module GitNames {
  import opened Texts

  type Sha = string

  predicate IsAlphanumeric(c: char) {
    'A' <= c <= 'Z' || 'a' <= c <= 'z' || '0' <= c <= '9'
  }

  predicate SafeId(s: string) {
    && 1 <= |s| <= 128 && IsAlphanumeric(s[0])
    && forall i :: 0 <= i < |s| ==> IsAlphanumeric(s[i]) || s[i] in {'.', '_', '-'}
  }

  predicate IsSha(s: string) {
    |s| == 40 && forall i :: 0 <= i < |s| ==> 'a' <= s[i] <= 'f' || '0' <= s[i] <= '9'
  }

  predicate OccursAt(s: string, part: string, i: nat) {
    i + |part| <= |s| && s[i..i + |part|] == part
  }

  predicate Contains(s: string, part: string) {
    exists i :: 0 <= i <= |s| && OccursAt(s, part, i)
  }

  predicate ValidGitRef(s: string) {
    && s != "" && ByteLength(s) <= 255
    && (forall i :: 0 <= i < |s| ==> s[i] !in {' ', '~', '^', ':', '?', '*', '[', '\\'})
    && !Contains(s, "..") && s[0] != '/' && s[|s| - 1] != '/'
  }

  /** The ASCII letters and digits by their codes. */
  predicate Coded(c: char) {
    var code := c as int;
    47 < code < 58 || 64 < code < 91 || 96 < code < 123
  }

  lemma HexDigits(c: char)
    ensures ('a' <= c <= 'f' || '0' <= c <= '9') <==> c in "0123456789abcdef"
  {
  }

  /** One to 128 letters, digits, dots, underscores and hyphens, beginning with a letter or digit. */
  lemma SafeIdIff(s: string)
    ensures SafeId(s) <==>
      0 < |s| < 129 && Coded(s[0]) && forall i :: 0 <= i < |s| ==> Coded(s[i]) || s[i] in "-._"
  {
    forall i | 0 <= i < |s| ensures IsAlphanumeric(s[i]) <==> Coded(s[i]) {
    }
  }

  /** Forty lower-case hexadecimal digits. */
  lemma ShaIff(s: string)
    ensures IsSha(s) <==> |s| == 40 && forall i :: 0 <= i < |s| ==> s[i] in "0123456789abcdef"
  {
    forall i | 0 <= i < |s|
      ensures ('a' <= s[i] <= 'f' || '0' <= s[i] <= '9') <==> s[i] in "0123456789abcdef"
    {
      HexDigits(s[i]);
    }
  }

  lemma TwoDotsIff(s: string)
    ensures Contains(s, "..") <==> exists i :: 0 < i < |s| && s[i - 1] == s[i] == '.'
  {
    if Contains(s, "..") {
      var i :| 0 <= i <= |s| && OccursAt(s, "..", i);
      assert s[i] == s[i..i + 2][0] && s[i + 1] == s[i..i + 2][1];
      assert 0 < i + 1 < |s| && s[i + 1 - 1] == s[i + 1] == '.';
    }
    if i :| 0 < i < |s| && s[i - 1] == s[i] == '.' {
      assert s[i - 1..i - 1 + 2] == "..";
      assert OccursAt(s, "..", i - 1);
    }
  }

  /** No more than 255 bytes, none of git's special characters, no two dots together, no slash at an end. */
  lemma GitRefIff(s: string)
    ensures ValidGitRef(s) <==>
      && 0 < ByteLength(s) < 256 && s[0] != '/' && s[|s| - 1] != '/'
      && (forall i :: 0 <= i < |s| ==> s[i] !in "*:?[\\^~ ")
      && !exists i :: 0 < i < |s| && s[i - 1] == s[i] == '.'
  {
    TwoDotsIff(s);
  }
}
