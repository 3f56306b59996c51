/**
 Namespace names: validity, the daemon's prefix, and the full name built from both.
 */
module Names {
  type Name = string

  const MAX_NAME_LENGTH := 63
  const MAX_PREFIX_LENGTH := 32

  predicate IsLetter(c: char) {
    'a' <= c <= 'z' || 'A' <= c <= 'Z'
  }

  predicate IsNameChar(c: char) {
    IsLetter(c) || '0' <= c <= '9' || c == '-'
  }

  /** A leading letter, then letters, digits and hyphens. */
  predicate WellSpelled(s: string) {
    && s != []
    && IsLetter(s[0])
    && forall i | 0 <= i < |s| :: IsNameChar(s[i])
  }

  predicate ValidName(s: string) {
    WellSpelled(s) && |s| <= MAX_NAME_LENGTH
  }

  predicate ValidPrefix(s: string) {
    WellSpelled(s) && |s| <= MAX_PREFIX_LENGTH
  }

  /** The daemon manages a name that is its prefix, or its prefix followed by '-' or '_'. */
  predicate MatchesPrefix(prefix: string, name: Name) {
    && prefix <= name
    && (|name| == |prefix| || name[|prefix|] == '-' || name[|prefix|] == '_')
  }

  /** A name already carrying the prefix is kept, any other gets it prepended. */
  function FullName(prefix: string, name: string): Name {
    if MatchesPrefix(prefix, name) then name else prefix + "-" + name
  }

  /** A namespace file whose name has a separator is managed only when it carries the prefix. */
  predicate ShouldManage(prefix: string, name: string) {
    ('-' in name || '_' in name) ==> MatchesPrefix(prefix, name)
  }

  /** Every configured key is inside the set of names the daemon manages. */
  lemma FullNameMatches(prefix: string, name: string)
    ensures MatchesPrefix(prefix, FullName(prefix, name))
    ensures FullName(prefix, FullName(prefix, name)) == FullName(prefix, name)
  {
    var full := prefix + "-" + name;
    assert full[..|prefix|] == prefix;
    assert full[|prefix|] == '-';
  }

  /**
   A valid prefix and a valid short name do not make a valid full name: the kernel layer
   checks the limit again, and only the length can fail it.
   */
  lemma FullNameValidIff(prefix: string, name: string)
    requires ValidPrefix(prefix) && ValidName(name)
    ensures ValidName(FullName(prefix, name)) <==>
            MatchesPrefix(prefix, name) || |prefix| + 1 + |name| <= MAX_NAME_LENGTH
  {
    var full := prefix + "-" + name;
    forall i | 0 <= i < |full| ensures IsNameChar(full[i]) {
      assert full[i] == if i < |prefix| then prefix[i]
                        else if i == |prefix| then '-'
                        else name[i - |prefix| - 1];
    }
    assert full[0] == prefix[0];
  }

  /** Full names of files that carry no prefix of their own collide only for equal names. */
  lemma FullNameInjective(prefix: string, a: string, b: string)
    requires !MatchesPrefix(prefix, a) && !MatchesPrefix(prefix, b)
    requires FullName(prefix, a) == FullName(prefix, b)
    ensures a == b
  {
    var fa, fb := prefix + "-" + a, prefix + "-" + b;
    assert fa[|prefix| + 1..] == a;
    assert fb[|prefix| + 1..] == b;
  }

  // ----- the same, letter by letter -----

  /** The code points of 'a' to 'z' and 'A' to 'Z'. */
  predicate IsAlphabetic(code: int) {
    97 <= code <= 122 || 65 <= code <= 90
  }

  /** The code points allowed behind the first: letters, digits and the hyphen. */
  predicate IsAllowed(code: int) {
    IsAlphabetic(code) || 48 <= code <= 57 || code == 45
  }

  /** One to 63 characters, a letter first, then letters, digits and hyphens. */
  lemma ValidNameIff(s: string)
    ensures ValidName(s) <==>
            1 <= |s| <= 63 && IsAlphabetic(s[0] as int) && forall c | c in s :: IsAllowed(c as int)
  {
    assert forall i | 0 <= i < |s| :: s[i] in s;
  }

  lemma ValidPrefixIff(s: string)
    ensures ValidPrefix(s) <==>
            1 <= |s| <= 32 && IsAlphabetic(s[0] as int) && forall c | c in s :: IsAllowed(c as int)
  {
    assert forall i | 0 <= i < |s| :: s[i] in s;
  }

  /** The name is the prefix, or continues it with a hyphen or an underscore. */
  predicate Owned(prefix: string, name: Name) {
    name == prefix || prefix + "-" <= name || prefix + "_" <= name
  }

  lemma OwnedIff(prefix: string, name: Name)
    ensures MatchesPrefix(prefix, name) <==> Owned(prefix, name)
  {
    if Owned(prefix, name) {
      assert prefix <= name;
      if name != prefix {
        assert (prefix + "-")[|prefix|] == '-' && (prefix + "_")[|prefix|] == '_';
      }
    }
    if MatchesPrefix(prefix, name) && |name| > |prefix| {
      assert name[..|prefix| + 1] == prefix + [name[|prefix|]];
    }
  }

  /** A plain name gets the prefix and a hyphen; an owned name is kept as it is. */
  lemma FullNameForms(prefix: string, name: string)
    ensures Owned(prefix, name) ==> FullName(prefix, name) == name
    ensures !Owned(prefix, name) ==> FullName(prefix, name) == prefix + "-" + name
  {
    OwnedIff(prefix, name);
  }

  /** A file is left to another daemon exactly when its name has a separator and is not owned. */
  lemma ForeignIff(prefix: string, name: string)
    ensures !ShouldManage(prefix, name) <==> ('-' in name || '_' in name) && !Owned(prefix, name)
  {
    OwnedIff(prefix, name);
  }
}
