/** Finding the command in a shell line behind its variable assignments
    (`first_meaningful_token` in `src/brain/rsi_subsystem.rs`). */
module ShellTokens {
  import opened Text

  /** `u8::is_ascii_whitespace`. */
  predicate IsBlank(c: char) {
    c == ' ' || c == '\t' || c == '\n' || c == '\U{000C}' || c == '\r'
  }

  predicate IsNameChar(c: char) {
    IsAsciiAlphanumeric(c) || c == '_'
  }

  predicate IsQuote(c: char) {
    c == '"' || c == '\''
  }

  // ----- the grammar ------------------------------------------------------------

  ghost predicate AllNameChars(s: string, i: nat, e: nat)
    requires i <= e <= |s|
  {
    forall k :: i <= k < e ==> IsNameChar(s[k])
  }

  /** `s[i..e]` is a name and `s[e]` its equals sign. */
  ghost predicate NameUpTo(s: string, i: nat, e: nat) {
    i < e < |s| && AllNameChars(s, i, e) && s[e] == '='
  }

  /** A value that starts at `v` ends at `m`: behind its closing quote, at the
      end of the text if the quote is not closed, or before the next blank. */
  ghost predicate ValueEnds(s: string, v: nat, m: nat) {
    && v <= m <= |s|
    && if v < |s| && IsQuote(s[v]) then
         || (v + 1 < m && s[m - 1] == s[v] && forall k :: v < k < m - 1 ==> s[k] != s[v])
         || (m == |s| && forall k :: v < k < |s| ==> s[k] != s[v])
       else
         && (forall k :: v <= k < m ==> !IsBlank(s[k]))
         && (m < |s| ==> IsBlank(s[m]))
  }

  /** An assignment stretches from `i` to `m`. */
  ghost predicate Assignment(s: string, i: nat, m: nat) {
    exists e: nat :: NameUpTo(s, i, e) && ValueEnds(s, e + 1, m)
  }

  /** Between `i` and `j` there are only blanks and assignments. */
  ghost predicate Skips(s: string, i: nat, j: nat)
    requires i <= j <= |s|
    decreases j - i
  {
    || i == j
    || (i < j && IsBlank(s[i]) && Skips(s, i + 1, j))
    || exists m: nat :: i < m <= j && Assignment(s, i, m) && Skips(s, m, j)
  }

  /** Something other than a blank or an assignment starts at `a`. */
  ghost predicate Starts(s: string, a: nat) {
    a < |s| && !IsBlank(s[a]) && forall e: nat :: !NameUpTo(s, a, e)
  }

  /** `s[a..b]` is a longest stretch without blanks. */
  ghost predicate Token(s: string, a: nat, b: nat) {
    && a < b <= |s|
    && (forall k :: a <= k < b ==> !IsBlank(s[k]))
    && (b < |s| ==> IsBlank(s[b]))
  }

  // ----- the scanner --------------------------------------------------------------

  method SkipBlanks(s: string, i: nat) returns (j: nat)
    requires i <= |s|
    ensures i <= j <= |s| && (j < |s| ==> !IsBlank(s[j]))
    ensures forall k :: i <= k < j ==> IsBlank(s[k])
  {
    j := i;
    while j < |s| && IsBlank(s[j])
      invariant i <= j <= |s|
      invariant forall k :: i <= k < j ==> IsBlank(s[k])
    {
      j := j + 1;
    }
  }

  method SkipValue(s: string, v: nat) returns (m: nat)
    requires v <= |s|
    ensures ValueEnds(s, v, m)
  {
    m := v;
    if v < |s| && IsQuote(s[v]) {
      m := m + 1;
      while m < |s| && s[m] != s[v]
        invariant v < m <= |s|
        invariant forall k :: v < k < m ==> s[k] != s[v]
      {
        m := m + 1;
      }
      if m < |s| {
        m := m + 1;
      }
    } else {
      while m < |s| && !IsBlank(s[m])
        invariant v <= m <= |s|
        invariant forall k :: v <= k < m ==> !IsBlank(s[k])
      {
        m := m + 1;
      }
    }
  }

  /** The bounds of the first meaningful token: the first thing behind blanks
      and assignments, up to the next blank; none iff there is nothing else. */
  method FirstMeaningfulToken(cmd: string) returns (r: Option<(nat, nat)>)
    ensures r.None? <==> Skips(cmd, 0, |cmd|)
    ensures r.Some? ==>
              var (a, b) := r.value;
              a <= |cmd| && Skips(cmd, 0, a) && Starts(cmd, a) && Token(cmd, a, b)
  {
    var i: nat := 0;
    while i < |cmd|
      invariant i <= |cmd| && Skips(cmd, 0, i)
      decreases |cmd| - i
    {
      var tokenStart := SkipBlanks(cmd, i);
      SkipsBlanks(cmd, i, tokenStart);
      SkipsJoin(cmd, 0, i, tokenStart);
      i := tokenStart;
      if i >= |cmd| {
        return None;
      }
      while i < |cmd| && IsNameChar(cmd[i])
        invariant tokenStart <= i <= |cmd| && AllNameChars(cmd, tokenStart, i)
      {
        i := i + 1;
      }
      if i > tokenStart && i < |cmd| && cmd[i] == '=' {
        ghost var e := i;
        i := SkipValue(cmd, i + 1);
        assert NameUpTo(cmd, tokenStart, e);
        assert Assignment(cmd, tokenStart, i);
        assert Skips(cmd, i, i);
        assert Skips(cmd, tokenStart, i);
        SkipsJoin(cmd, 0, tokenStart, i);
        continue;
      }
      NoNameStarts(cmd, tokenStart, i);
      var j := tokenStart;
      while j < |cmd| && !IsBlank(cmd[j])
        invariant tokenStart <= j <= |cmd|
        invariant forall k :: tokenStart <= k < j ==> !IsBlank(cmd[k])
      {
        j := j + 1;
      }
      if Skips(cmd, 0, |cmd|) {
        SkipStops(cmd, 0, tokenStart, |cmd|);
      }
      return Some((tokenStart, j));
    }
    return None;
  }

  lemma NoNameStarts(s: string, a: nat, i: nat)
    requires a <= i <= |s| && AllNameChars(s, a, i)
    requires i < |s| ==> !IsNameChar(s[i])
    requires !(i > a && i < |s| && s[i] == '=')
    ensures forall e: nat :: !NameUpTo(s, a, e)
  {
  }

  lemma {:induction false} SkipsBlanks(s: string, i: nat, j: nat)
    requires i <= j <= |s|
    requires forall k :: i <= k < j ==> IsBlank(s[k])
    ensures Skips(s, i, j)
    decreases j - i
  {
    if i < j {
      SkipsBlanks(s, i + 1, j);
    }
  }

  lemma {:induction false} SkipsJoin(s: string, i: nat, k: nat, j: nat)
    requires i <= k <= j <= |s| && Skips(s, i, k) && Skips(s, k, j)
    ensures Skips(s, i, j)
    decreases k - i
  {
    hide Assignment;
    if i < k {
      if IsBlank(s[i]) && Skips(s, i + 1, k) {
        SkipsJoin(s, i + 1, k, j);
      } else {
        var m: nat :| i < m <= k && Assignment(s, i, m) && Skips(s, m, k);
        SkipsJoin(s, m, k, j);
      }
    }
  }

  // ----- the grammar is unambiguous -------------------------------------------------------

  lemma NameEndsOnce(s: string, i: nat, e: nat, e': nat)
    requires NameUpTo(s, i, e) && NameUpTo(s, i, e')
    ensures e == e'
  {
    assert !IsNameChar('=');
  }

  lemma ValueEndsOnce(s: string, v: nat, m: nat, m': nat)
    requires ValueEnds(s, v, m) && ValueEnds(s, v, m')
    ensures m == m'
  {
  }

  lemma AssignmentEndsOnce(s: string, i: nat, m: nat, m': nat)
    requires Assignment(s, i, m) && Assignment(s, i, m')
    ensures m == m'
    ensures !IsBlank(s[i])
  {
    var e: nat :| NameUpTo(s, i, e) && ValueEnds(s, e + 1, m);
    var e': nat :| NameUpTo(s, i, e') && ValueEnds(s, e' + 1, m');
    NameEndsOnce(s, i, e, e');
    hide ValueEnds;
    ValueEndsOnce(s, e + 1, m, m');
    assert IsNameChar(s[i]);
  }

  /** No way of skipping gets past the place where something else starts, or
      past the end of the text. */
  lemma {:induction false} SkipStops(s: string, i: nat, a: nat, j: nat)
    requires i <= a <= |s| && i <= j <= |s|
    requires Skips(s, i, a) && Skips(s, i, j)
    requires a < |s| ==> Starts(s, a)
    ensures j <= a
    decreases a - i
  {
    if i < j {
      if i == a {
        NothingSkipsAt(s, a, j);
      } else if IsBlank(s[i]) {
        BlankStep(s, i, a);
        BlankStep(s, i, j);
        SkipStops(s, i + 1, a, j);
      } else {
        var m: nat :| i < m <= a && Assignment(s, i, m) && Skips(s, m, a);
        var m': nat :| i < m' <= j && Assignment(s, i, m') && Skips(s, m', j);
        AssignmentEndsOnce(s, i, m, m');
        SkipStops(s, m, a, j);
      }
    }
  }

  lemma NothingSkipsAt(s: string, a: nat, j: nat)
    requires a < j <= |s| && Starts(s, a)
    ensures !Skips(s, a, j)
  {
  }

  lemma BlankStep(s: string, i: nat, j: nat)
    requires i < j <= |s| && IsBlank(s[i]) && Skips(s, i, j)
    ensures Skips(s, i + 1, j)
  {
    if m: nat :| i < m <= j && Assignment(s, i, m) && Skips(s, m, j) {
      AssignmentEndsOnce(s, i, m, m);
    }
  }

  /** The token is determined: whatever the scanner returns is the only one
      that fits the grammar. */
  lemma TokenUnique(s: string, a: nat, b: nat, a': nat, b': nat)
    requires a <= |s| && Skips(s, 0, a) && Starts(s, a) && Token(s, a, b)
    requires a' <= |s| && Skips(s, 0, a') && Starts(s, a') && Token(s, a', b')
    ensures a == a' && b == b'
  {
    SkipStops(s, 0, a, a');
    SkipStops(s, 0, a', a);
  }

  // ----- assignments in front change nothing ------------------------------------------------

  lemma ShiftAssignment(p: string, c: string, i: nat, m: nat)
    requires i <= |c|
    ensures Assignment(p + c, |p| + i, |p| + m) <==> Assignment(c, i, m)
  {
    var s := p + c;
    assert forall k :: 0 <= k < |c| ==> s[|p| + k] == c[k];
    if Assignment(c, i, m) {
      var e: nat :| NameUpTo(c, i, e) && ValueEnds(c, e + 1, m);
      ShiftParts(p, c, i, e, m);
    }
    if Assignment(s, |p| + i, |p| + m) {
      var e: nat :| NameUpTo(s, |p| + i, e) && ValueEnds(s, e + 1, |p| + m);
      ShiftParts(p, c, i, e - |p|, m);
    }
  }

  lemma ShiftParts(p: string, c: string, i: nat, e: nat, m: nat)
    requires i <= |c|
    ensures NameUpTo(p + c, |p| + i, |p| + e) <==> NameUpTo(c, i, e)
    ensures ValueEnds(p + c, |p| + e + 1, |p| + m) <==> ValueEnds(c, e + 1, m)
  {
    var s := p + c;
    assert forall k :: |p| <= k < |s| ==> s[k] == c[k - |p|];
    assert forall k :: 0 <= k < |c| ==> s[|p| + k] == c[k];
  }

  lemma {:induction false} ShiftSkips(p: string, c: string, i: nat, j: nat)
    requires i <= j <= |c| && Skips(c, i, j)
    ensures Skips(p + c, |p| + i, |p| + j)
    decreases j - i
  {
    hide Assignment;
    if i < j {
      assert (p + c)[|p| + i] == c[i];
      if IsBlank(c[i]) && Skips(c, i + 1, j) {
        ShiftSkips(p, c, i + 1, j);
      } else {
        var m: nat :| i < m <= j && Assignment(c, i, m) && Skips(c, m, j);
        ShiftSkips(p, c, m, j);
        ShiftAssignment(p, c, i, m);
      }
    }
  }

  lemma ShiftStarts(p: string, c: string, a: nat)
    requires Starts(c, a)
    ensures Starts(p + c, |p| + a)
  {
    var s, k := p + c, |p| + a;
    assert s[k] == c[a];
    forall e: nat
      ensures !NameUpTo(s, k, e)
    {
      if e >= |p| {
        ShiftParts(p, c, a, e - |p|, 0);
      }
    }
  }

  /** A complete prefix of blanks and assignments is invisible: the token
      behind it is the token of the rest alone. */
  lemma PrefixIsIgnored(p: string, c: string, a: nat, b: nat)
    requires Skips(p + c, 0, |p|)
    requires a <= |c| && Skips(c, 0, a) && Starts(c, a) && Token(c, a, b)
    ensures Skips(p + c, 0, |p| + a) && Starts(p + c, |p| + a) && Token(p + c, |p| + a, |p| + b)
    ensures (p + c)[|p| + a..|p| + b] == c[a..b]
  {
    ShiftSkips(p, c, 0, a);
    SkipsJoin(p + c, 0, |p|, |p| + a);
    ShiftStarts(p, c, a);
    var s := p + c;
    assert forall k :: |p| <= k < |s| ==> s[k] == c[k - |p|];
  }

  /** `classify_bash_command` over its table of known tools. */
  method ClassifyBashCommand(cmd: string, table: map<string, string>) returns (r: Option<string>)
    ensures r.Some? ==>
              var s := Trim(cmd);
              exists a: nat, b: nat ::
                && a <= b <= |s| && Skips(s, 0, a) && Starts(s, a) && Token(s, a, b)
                && AsciiLower(s[a..b]) in table && r.value == table[AsciiLower(s[a..b])]
    ensures r.None? ==>
              var s := Trim(cmd);
              || Skips(s, 0, |s|)
              || exists a: nat, b: nat ::
                   && a <= b <= |s| && Skips(s, 0, a) && Starts(s, a) && Token(s, a, b)
                   && AsciiLower(s[a..b]) !in table
  {
    var trimmed := Trim(cmd);
    if trimmed == "" {
      return None;
    }
    var first := FirstMeaningfulToken(trimmed);
    if first.None? {
      return None;
    }
    var (a, b) := first.value;
    var name := AsciiLower(trimmed[a..b]);
    if name in table {
      return Some(table[name]);
    }
    return None;
  }

  // ----- what an assignment looks like ------------------------------------------------------

  /** A name: letters, digits and underscores, and at least one. */
  predicate IsName(name: string) {
    && name != ""
    && forall k :: 0 <= k < |name| ==>
         'a' <= name[k] <= 'z' || 'A' <= name[k] <= 'Z' || '0' <= name[k] <= '9' || name[k] == '_'
  }

  predicate IsSpace(c: char) {
    c == ' ' || c == '\t' || c == '\n' || c == '\r' || c == '\U{000C}'
  }

  lemma NameFront(name: string, tail: string)
    requires IsName(name)
    ensures NameUpTo(name + "=" + tail, 0, |name|)
  {
    var s := name + "=" + tail;
    assert s[|name|] == '=';
    assert forall k :: 0 <= k < |name| ==> s[k] == name[k];
  }

  lemma QuotedValue(a: string, quote: char, value: string, rest: string)
    requires (quote == '"' || quote == '\'') && quote !in value
    ensures ValueEnds(a + ([quote] + value + [quote] + rest), |a|, |a| + |value| + 2)
  {
    var s, m := a + ([quote] + value + [quote] + rest), |a| + |value| + 2;
    assert s[|a|] == quote && s[m - 1] == quote;
    assert forall k :: |a| < k < m - 1 ==> s[k] == value[k - |a| - 1] && value[k - |a| - 1] in value;
  }

  lemma BareValue(a: string, value: string, rest: string)
    requires forall k :: 0 <= k < |value| ==> !IsSpace(value[k])
    requires value != "" ==> value[0] != '"' && value[0] != '\''
    requires rest != "" ==> IsSpace(rest[0])
    ensures ValueEnds(a + (value + rest), |a|, |a| + |value|)
  {
    var s, m := a + (value + rest), |a| + |value|;
    assert m < |s| ==> s[m] == rest[0];
    assert forall k :: |a| <= k < m ==> s[k] == value[k - |a|];
  }

  /** An assignment with a value in quotes of either kind is skipped whole, blanks
      in the value included. */
  lemma QuotedIsSkipped(name: string, quote: char, value: string, rest: string)
    requires IsName(name) && (quote == '"' || quote == '\'') && quote !in value
    ensures var p := name + "=" + [quote] + value + [quote]; Skips(p + rest, 0, |p|)
  {
    hide NameUpTo, ValueEnds, IsName, Skips;
    var p, tail := name + "=" + [quote] + value + [quote], [quote] + value + [quote] + rest;
    NameFront(name, tail);
    QuotedValue(name + "=", quote, value, rest);
    assert p + rest == name + "=" + tail;
    AssignmentSkips(p + rest, |p|);
  }

  /** One without quotes is skipped up to the next blank. */
  lemma BareIsSkipped(name: string, value: string, rest: string)
    requires IsName(name) && forall k :: 0 <= k < |value| ==> !IsSpace(value[k])
    requires value != "" ==> value[0] != '"' && value[0] != '\''
    requires rest != "" ==> IsSpace(rest[0])
    ensures var p := name + "=" + value; Skips(p + rest, 0, |p|)
  {
    hide NameUpTo, ValueEnds, IsName, IsSpace, Skips;
    var p := name + "=" + value;
    NameFront(name, value + rest);
    BareValue(name + "=", value, rest);
    assert p + rest == name + "=" + (value + rest);
    AssignmentSkips(p + rest, |p|);
  }

  lemma AssignmentSkips(s: string, m: nat)
    requires 0 < m <= |s| && Assignment(s, 0, m)
    ensures Skips(s, 0, m)
  {
    assert Skips(s, m, m);
  }

  lemma SpacesAre(c: char)
    ensures IsSpace(c) <==> IsBlank(c)
    ensures IsSpace(c) ==> !IsNameChar(c) && c != '='
  {
  }

  lemma NameWithin(word: string, rest: string, e: nat)
    requires NameUpTo(word + rest, 0, e) && (rest != "" ==> IsSpace(rest[0]))
    ensures e < |word| && IsName(word[..e]) && word[e] == '='
  {
    var s := word + rest;
    assert |word| < |s| ==> s[|word|] == rest[0];
    if rest != "" {
      SpacesAre(rest[0]);
    }
    assert e < |word|;
    assert forall k :: 0 <= k < |word| ==> s[k] == word[k];
  }

  /** A word behind which there is a blank or nothing, and that is no assignment, is
      the token of a text that begins with it; options such as `--all=yes` are. */
  lemma WordIsToken(word: string, rest: string)
    requires word != "" && forall k :: 0 <= k < |word| ==> !IsSpace(word[k])
    requires rest != "" ==> IsSpace(rest[0])
    requires forall n :: 0 <= n < |word| && word[n] == '=' ==> !IsName(word[..n])
    ensures Skips(word + rest, 0, 0) && Starts(word + rest, 0) && Token(word + rest, 0, |word|)
  {
    hide IsSpace, IsBlank, IsName, NameUpTo;
    var s := word + rest;
    assert forall k :: 0 <= k < |word| ==> s[k] == word[k];
    assert |word| < |s| ==> s[|word|] == rest[0];
    forall c: char
      ensures IsSpace(c) <==> IsBlank(c)
    {
      SpacesAre(c);
    }
    forall e: nat
      ensures !NameUpTo(s, 0, e)
    {
      if NameUpTo(s, 0, e) {
        NameWithin(word, rest, e);
      }
    }
  }
}
