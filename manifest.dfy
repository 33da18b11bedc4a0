/**
  The manifest patch (bin/create-next-prisma.js:68-71): the text of the
  copied `package.json` goes through
  `packageJson.replace('{{project-name}}', projectName)`.  With a string as
  the pattern, `String.prototype.replace` (ECMAScript 2022, section
  22.1.3.18) replaces the first occurrence only, and the replacement text
  passes through GetSubstitution (section 22.1.3.18.1), so `$` sequences in
  the project name are interpreted.
*/
module Manifest {
  import opened Wrappers

  /** The placeholder in the template's manifest. */
  const Token: string := "{{project-name}}"

  predicate OccursAt(s: string, pat: string, i: nat)
  {
    i + |pat| <= |s| && s[i..i + |pat|] == pat
  }

  /**
    StringIndexOf(s, pat, from): the first position at or after `from` where
    `pat` occurs, or `None` for the -1 of the standard.
  */
  function IndexOf(s: string, pat: string, from: nat): (r: Option<nat>)
    ensures r.Some? ==> from <= r.value && OccursAt(s, pat, r.value)
    ensures r.Some? ==> forall i | from <= i < r.value :: !OccursAt(s, pat, i)
    ensures r.None? ==> forall i | from <= i :: !OccursAt(s, pat, i)
    decreases |s| - from
  {
    if from + |pat| > |s| then None
    else if s[from..from + |pat|] == pat then Some(from)
    else IndexOf(s, pat, from + 1)
  }

  /** The characters that make a `$` in front of them a substitution. */
  predicate DollarSpecial(c: char)
  {
    c == '$' || c == '&' || c == '`' || c == '\''
  }

  /**
    What `$` followed by the special character `c` stands for: `$`, the
    matched text, the text before it, or the text after it.
  */
  function DollarPiece(c: char, matched: string, str: string, position: nat): string
    requires position <= |str|
  {
    var tailPos := if position + |matched| <= |str| then position + |matched| else |str|;
    if c == '$' then "$"
    else if c == '&' then matched
    else if c == '`' then str[..position]
    else str[tailPos..]
  }

  /**
    GetSubstitution for a string pattern: there are no captures and no named
    captures, so only `$$`, `$&`, `` $` `` and `$'` are replaced; `$n`, `$nn`,
    `$<` and a `$` before anything else stay as they are.
  */
  function GetSubstitution(matched: string, str: string, position: nat, replacement: string)
    : (r: string)
    requires position <= |str|
    ensures '$' !in replacement ==> r == replacement
    decreases |replacement|
  {
    if replacement == [] then []
    else if replacement[0] == '$' && |replacement| >= 2 && DollarSpecial(replacement[1]) then
      DollarPiece(replacement[1], matched, str, position) +
      GetSubstitution(matched, str, position, replacement[2..])
    else
      [replacement[0]] + GetSubstitution(matched, str, position, replacement[1..])
  }

  /**
    `s.replace(pattern, replaceValue)` with a string pattern: the text up to
    the first occurrence, the substitution, and the text after it.
  */
  function Replace(s: string, pattern: string, replaceValue: string): (r: string)
    ensures IndexOf(s, pattern, 0).None? ==> r == s
    ensures IndexOf(s, pattern, 0).Some? && '$' !in replaceValue ==>
              |r| == |s| - |pattern| + |replaceValue|
  {
    match IndexOf(s, pattern, 0)
    case None => s
    case Some(pos) =>
      s[..pos] + GetSubstitution(pattern, s, pos, replaceValue) + s[pos + |pattern|..]
  }

  /** The number of (possibly overlapping) occurrences of the token in `s`. */
  function Count(s: string): nat
    decreases |s|
  {
    if |s| < |Token| then 0
    else (if OccursAt(s, Token, 0) then 1 else 0) + Count(s[1..])
  }

  // ---------------------------------------------------------------------
  // First occurrence only

  /**
    Without the pattern the text is unchanged; otherwise only the first
    occurrence is replaced, by GetSubstitution of the replacement, and the
    text before and after it is kept as it was.  A replacement without `$`
    is inserted as it is.
  */
  lemma ReplaceFirstOccurrence(s: string, pattern: string, replaceValue: string)
    ensures (forall i :: !OccursAt(s, pattern, i)) ==> Replace(s, pattern, replaceValue) == s
    ensures forall pos: nat | OccursAt(s, pattern, pos) &&
                         (forall i | 0 <= i < pos :: !OccursAt(s, pattern, i)) ::
              Replace(s, pattern, replaceValue) ==
              s[..pos] + GetSubstitution(pattern, s, pos, replaceValue) + s[pos + |pattern|..]
    ensures forall pos: nat | OccursAt(s, pattern, pos) &&
                         (forall i | 0 <= i < pos :: !OccursAt(s, pattern, i)) ::
              '$' !in replaceValue ==>
              Replace(s, pattern, replaceValue) == s[..pos] + replaceValue + s[pos + |pattern|..]
  {
    match IndexOf(s, pattern, 0)
    case None =>
    case Some(first) =>
      forall pos: nat | OccursAt(s, pattern, pos) && (forall i | 0 <= i < pos :: !OccursAt(s, pattern, i))
        ensures pos == first
      {
      }
  }

  /**
    How GetSubstitution reads a `$` sequence at the front of the replacement,
    for any rest `r`: `$$` gives `$`, `$&` the matched text, `` $` `` the
    text before the match, `$'` the text after it, and a lone `$` at the end
    stays.
  */
  lemma SubstitutionSteps(matched: string, str: string, position: nat, r: string)
    requires position <= |str|
    ensures GetSubstitution(matched, str, position, "$$" + r) ==
            "$" + GetSubstitution(matched, str, position, r)
    ensures GetSubstitution(matched, str, position, "$&" + r) ==
            matched + GetSubstitution(matched, str, position, r)
    ensures GetSubstitution(matched, str, position, "$`" + r) ==
            str[..position] + GetSubstitution(matched, str, position, r)
    ensures position + |matched| <= |str| ==>
              GetSubstitution(matched, str, position, "$'" + r) ==
              str[position + |matched|..] + GetSubstitution(matched, str, position, r)
    ensures GetSubstitution(matched, str, position, "$") == "$"
  {
    DollarStep(matched, str, position, '$', r);
    DollarStep(matched, str, position, '&', r);
    DollarStep(matched, str, position, '`', r);
    DollarStep(matched, str, position, '\'', r);
  }

  lemma DollarStep(matched: string, str: string, position: nat, c: char, r: string)
    requires position <= |str| && DollarSpecial(c)
    ensures GetSubstitution(matched, str, position, ['$', c] + r) ==
            DollarPiece(c, matched, str, position) + GetSubstitution(matched, str, position, r)
  {
    var rep := ['$', c] + r;
    assert rep[0] == '$' && rep[1] == c && rep[2..] == r;
  }

  /**
    Everything else is copied: a `$` before a character that starts no
    sequence, and any character other than `$`.
  */
  lemma SubstitutionLiteralSteps(matched: string, str: string, position: nat, c: char, r: string)
    requires position <= |str|
    ensures !DollarSpecial(c) ==>
              GetSubstitution(matched, str, position, ['$', c] + r) ==
              "$" + GetSubstitution(matched, str, position, [c] + r)
    ensures c != '$' ==>
              GetSubstitution(matched, str, position, [c] + r) ==
              [c] + GetSubstitution(matched, str, position, r)
  {
    assert (['$', c] + r)[1..] == [c] + r && ([c] + r)[1..] == r;
  }

  /** For example: `$$` gives `$`, `$&` the token itself, `$1` stays. */
  lemma DollarSequencesInName()
    ensures Replace(Token, Token, "a$$b") == "a$b"
    ensures Replace(Token, Token, "a$&b") == "a" + Token + "b"
    ensures Replace(Token, Token, "a$1b") == "a$1b"
  {
    assert IndexOf(Token, Token, 0) == Some(0);
  }

  // ---------------------------------------------------------------------
  // Counting occurrences

  lemma OccursAtDrop(s: string, a: nat, i: nat)
    requires a <= |s|
    ensures OccursAt(s[a..], Token, i) <==> OccursAt(s, Token, a + i)
  {
    if a + i + |Token| <= |s| {
      assert s[a..][i..i + |Token|] == s[a + i..a + i + |Token|];
    }
  }

  /** Two occurrences of the token never overlap: it has no proper border. */
  lemma TokenDoesNotOverlap(s: string, i: nat, j: nat)
    requires OccursAt(s, Token, i) && OccursAt(s, Token, j) && i < j
    ensures i + |Token| <= j
  {
    // were j within the occurrence at i, its closing brace at i + 15 would
    // fall on a character of the one at j, which forces j == i + 1, and
    // then the 'p' at i + 2 would have to be a '{'
    assert s[i + 15] == '}' && s[i + 2] == 'p' by {
      assert s[i..i + 16][15] == s[i + 15] && s[i..i + 16][2] == s[i + 2];
    }
    assert forall x | j <= x < j + 16 :: s[x] == Token[x - j] by {
      forall x | j <= x < j + 16 ensures s[x] == Token[x - j] {
        assert s[j..j + 16][x - j] == s[x];
      }
    }
    assert forall k | 0 <= k < 14 :: Token[k] != '}';
  }

  /** Positions without an occurrence at the front do not count. */
  lemma {:induction false} CountDropFront(s: string, k: nat)
    requires k <= |s|
    requires forall i | 0 <= i < k :: !OccursAt(s, Token, i)
    ensures Count(s) == Count(s[k..])
    decreases k
  {
    if k > 0 {
      assert !OccursAt(s, Token, 0);
      forall i | 0 <= i < k - 1 ensures !OccursAt(s[1..], Token, i) {
        OccursAtDrop(s, 1, i);
      }
      CountDropFront(s[1..], k - 1);
      assert s[1..][k - 1..] == s[k..];
    }
  }

  /** Counting from the first occurrence: it, plus those after it. */
  lemma CountFromFirst(s: string, pos: nat)
    requires OccursAt(s, Token, pos) && forall i | 0 <= i < pos :: !OccursAt(s, Token, i)
    ensures Count(s) == 1 + Count(s[pos + |Token|..])
  {
    CountDropFront(s, pos);
    var t := s[pos..];
    OccursAtDrop(s, pos, 0);
    assert Count(t) == 1 + Count(t[1..]);
    forall i | 0 <= i < |Token| - 1 ensures !OccursAt(t[1..], Token, i) {
      OccursAtDrop(s, pos + 1, i);
      assert s[pos + 1..] == t[1..];
      if OccursAt(s, Token, pos + 1 + i) {
        TokenDoesNotOverlap(s, pos, pos + 1 + i);
      }
    }
    CountDropFront(t[1..], |Token| - 1);
    assert t[1..][|Token| - 1..] == s[pos + |Token|..];
  }

  /** Occurrences in a suffix remain occurrences of the whole text. */
  lemma {:induction false} CountSuffix(a: string, b: string)
    ensures Count(a + b) >= Count(b)
    decreases |a|
  {
    if a == [] {
      assert a + b == b;
    } else if |a + b| >= |Token| {
      assert (a + b)[1..] == a[1..] + b;
      CountSuffix(a[1..], b);
      assert Count(a + b) >= Count(a[1..] + b);
    }
  }

  /** Later occurrences of the token survive the patch, whatever the name. */
  lemma PatchKeepsLaterTokens(s: string, name: string)
    ensures Count(Replace(s, Token, name)) >= Count(s) - 1
  {
    match IndexOf(s, Token, 0)
    case None =>
    case Some(pos) =>
      CountFromFirst(s, pos);
      CountSuffix(s[..pos] + GetSubstitution(Token, s, pos, name), s[pos + |Token|..]);
  }

  /**
    The patch removes exactly one occurrence when the name is inserted as it
    is (no `$`), cannot start a new occurrence (no `{`), and the character in
    front of the placeholder cannot begin one that runs into the name (it is
    not a character of the token, as the `"` of `"name": "{{project-name}}"`).
  */
  lemma PatchRemovesOneToken(s: string, name: string, pos: nat)
    requires OccursAt(s, Token, pos) && forall i | 0 <= i < pos :: !OccursAt(s, Token, i)
    requires '$' !in name && '{' !in name
    requires pos == 0 || s[pos - 1] !in Token
    ensures Count(Replace(s, Token, name)) == Count(s) - 1
  {
    ReplaceFirstOccurrence(s, Token, name);
    var pre, post := s[..pos], s[pos + |Token|..];
    var r := pre + name + post;
    assert Replace(s, Token, name) == r;
    var k := |pre| + |name|;
    forall i | 0 <= i < k ensures !OccursAt(r, Token, i) {
      NoTokenStartsBeforeTail(s, name, pos, i);
    }
    CountDropFront(r, k);
    assert r[k..] == post;
    CountFromFirst(s, pos);
  }

  /** In the patched text no occurrence starts before the text that followed the placeholder. */
  lemma NoTokenStartsBeforeTail(s: string, name: string, pos: nat, i: nat)
    requires OccursAt(s, Token, pos) && forall j | 0 <= j < pos :: !OccursAt(s, Token, j)
    requires '{' !in name
    requires pos == 0 || s[pos - 1] !in Token
    requires i < pos + |name|
    ensures !OccursAt(s[..pos] + name + s[pos + |Token|..], Token, i)
  {
    var r := s[..pos] + name + s[pos + |Token|..];
    if i >= pos {
      // it would start with a character of the name
      assert OccursAt(r, Token, i) ==> r[i] == Token[0] by {
        if OccursAt(r, Token, i) { assert r[i..i + |Token|][0] == r[i]; }
      }
      assert r[i] == name[i - pos];
    } else if i + |Token| <= pos {
      // it would be an occurrence before the first one
      assert r[i..i + |Token|] == s[i..i + |Token|];
      assert !OccursAt(s, Token, i);
    } else {
      // it would cover the character in front of the placeholder
      assert r[pos - 1] == s[pos - 1];
      if i + |Token| <= |r| {
        assert r[pos - 1] in r[i..i + |Token|] by {
          assert r[i..i + |Token|][pos - 1 - i] == r[pos - 1];
        }
      }
    }
  }

  /**
    A manifest holding the placeholder once ends up without it and with the
    name in its place.
  */
  lemma SinglePlaceholderPatched(s: string, name: string, pos: nat)
    requires OccursAt(s, Token, pos) && Count(s) == 1
    requires '$' !in name && '{' !in name
    requires pos == 0 || s[pos - 1] !in Token
    ensures Count(Replace(s, Token, name)) == 0
    ensures Replace(s, Token, name)[pos..pos + |name|] == name
  {
    var first := IndexOf(s, Token, 0).value;
    if first < pos {
      CountFromFirst(s, first);
      OccursAtDrop(s, first + |Token|, pos - first - |Token|);
      TokenDoesNotOverlap(s, first, pos);
      CountPositive(s[first + |Token|..], pos - first - |Token|);
    }
    PatchRemovesOneToken(s, name, pos);
  }

  /**
    Without the conditions of `PatchRemovesOneToken` the count need not
    drop: in `{{{{project-name}}}}` the name `project-name` rebuilds the
    placeholder from the braces around it.
  */
  lemma PatchCanRecreateToken()
    ensures Count("{{{{project-name}}}}") == 1
    ensures Replace("{{{{project-name}}}}", Token, "project-name") == Token
    ensures Count(Replace("{{{{project-name}}}}", Token, "project-name")) == 1
  {
    NestedTokenCount("{{{{project-name}}}}");
    NestedTokenPatched("{{{{project-name}}}}");
    TokenCount();
  }

  lemma NestedTokenCount(s: string)
    requires s == "{{{{project-name}}}}"
    ensures Count(s) == 1
  {
    NestedTokenOccurrences(s);
    CountFromFirst(s, 2);
  }

  lemma TokenCount()
    ensures Count(Token) == 1
  {
    assert OccursAt(Token, Token, 0);
    CountFromFirst(Token, 0);
  }

  /** In `{{{{project-name}}}}` the placeholder first occurs at position 2. */
  lemma NestedTokenOccurrences(s: string)
    requires s == "{{{{project-name}}}}"
    ensures OccursAt(s, Token, 2) && forall i | 0 <= i < 2 :: !OccursAt(s, Token, i)
  {
    assert s[0..16][2] == s[2];
    assert s[1..17][2] == s[3];
  }

  /** Patching `{{{{project-name}}}}` with the name `project-name` gives the placeholder. */
  lemma NestedTokenPatched(s: string)
    requires s == "{{{{project-name}}}}"
    ensures Replace(s, Token, "project-name") == Token
  {
    NestedTokenOccurrences(s);
    assert '$' !in "project-name";
    assert s[..2] == "{{" && s[18..] == "}}";
    assert "{{" + "project-name" + "}}" == Token;
    ReplaceFirstOccurrence(s, Token, "project-name");
  }

  lemma {:induction false} CountPositive(s: string, i: nat)
    requires OccursAt(s, Token, i)
    ensures Count(s) >= 1
    decreases i
  {
    if i > 0 {
      OccursAtDrop(s, 1, i - 1);
      CountPositive(s[1..], i - 1);
    }
  }
}
