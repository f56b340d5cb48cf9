/** The `escapeHTML` helper of the fill-in-the-blank webview script: five
    global replacements, `&` first, so that the entities produced by the later
    replacements are not escaped again. */
module HtmlEscape {
  import opened JsStrings

  /** `s.replace(/c/g, rep)`: every occurrence of the character `c` replaced
      by `rep` taken literally (a replacement without `$` patterns, as all
      five entities are). */
  function ReplaceAllChar(s: string, c: char, rep: string): (r: string)
    decreases |s|
  {
    if |s| == 0 then []
    else (if s[0] == c then rep else [s[0]]) + ReplaceAllChar(s[1..], c, rep)
  }

  /** The source's chain of replacements, in the source's order. */
  function EscapeHtml(text: string): string {
    ReplaceAllChar(
      ReplaceAllChar(
        ReplaceAllChar(
          ReplaceAllChar(
            ReplaceAllChar(text, '&', "&amp;"),
            '<', "&lt;"),
          '>', "&gt;"),
        '"', "&quot;"),
      '\'', "&#039;")
  }

  /** The five characters `EscapeHtml` rewrites. */
  predicate IsHtmlSpecial(c: char) {
    c == '&' || c == '<' || c == '>' || c == '"' || c == '\''
  }

  /** The five replacements of the chain, as (character, entity) pairs. */
  const Entities: seq<(char, string)> :=
    [('&', "&amp;"), ('<', "&lt;"), ('>', "&gt;"), ('"', "&quot;"), ('\'', "&#039;")]

  /** The entity `table` gives for `c`, or `c` itself. */
  function Lookup(c: char, table: seq<(char, string)>): string
    decreases |table|
  {
    if |table| == 0 then [c]
    else if table[0].0 == c then table[0].1
    else Lookup(c, table[1..])
  }

  /** The table read out case by case. */
  lemma EntityCases(c: char)
    ensures Lookup(c, Entities) ==
      if c == '&' then "&amp;" else if c == '<' then "&lt;" else if c == '>' then "&gt;"
      else if c == '"' then "&quot;" else if c == '\'' then "&#039;" else [c]
  {
    var t := Entities;
    assert t[1..][1..][1..][1..][1..] == [];
  }

  /** None of the five entities holds a `$`, so each replacement of the
      chain is inserted literally. */
  lemma EntitiesHaveNoDollar()
    ensures forall k :: 0 <= k < |Entities| ==> '$' !in Entities[k].1
  {
  }

  /** What one input character becomes. */
  function Entity(c: char): (e: string)
    ensures |e| >= 1
    ensures IsHtmlSpecial(c) ==> AllAscii(e) && e[0] == '&'
    ensures !IsHtmlSpecial(c) ==> e == [c]
  {
    EntityCases(c);
    Lookup(c, Entities)
  }

  /** Escaping character by character: the reference definition `EscapeHtml` is proved equal to. */
  function EscapeChars(s: string): string
    decreases |s|
  {
    if |s| == 0 then [] else Entity(s[0]) + EscapeChars(s[1..])
  }

  /** Decoding the five entities, the inverse of escaping. */
  function Unescape(s: string): string
    decreases |s|
  {
    if |s| == 0 then []
    else if |s| >= 5 && s[..5] == "&amp;" then "&" + Unescape(s[5..])
    else if |s| >= 4 && s[..4] == "&lt;" then "<" + Unescape(s[4..])
    else if |s| >= 4 && s[..4] == "&gt;" then ">" + Unescape(s[4..])
    else if |s| >= 6 && s[..6] == "&quot;" then "\"" + Unescape(s[6..])
    else if |s| >= 6 && s[..6] == "&#039;" then "'" + Unescape(s[6..])
    else [s[0]] + Unescape(s[1..])
  }

  lemma {:induction false} ReplaceAllCharConcat(a: string, b: string, c: char, rep: string)
    ensures ReplaceAllChar(a + b, c, rep) == ReplaceAllChar(a, c, rep) + ReplaceAllChar(b, c, rep)
    decreases |a|
  {
    if a == [] {
      assert a + b == b;
    } else {
      assert (a + b)[1..] == a[1..] + b;
      ReplaceAllCharConcat(a[1..], b, c, rep);
    }
  }

  lemma {:induction false} ReplaceAllCharAbsent(s: string, c: char, rep: string)
    requires c !in s
    ensures ReplaceAllChar(s, c, rep) == s
    decreases |s|
  {
    if s != [] {
      assert s[0] in s;
      assert forall x :: x in s[1..] ==> x in s;
      ReplaceAllCharAbsent(s[1..], c, rep);
    }
  }

  lemma {:induction false} EscapeHtmlConcat(a: string, b: string)
    ensures EscapeHtml(a + b) == EscapeHtml(a) + EscapeHtml(b)
  {
    var a1, b1 := ReplaceAllChar(a, '&', "&amp;"), ReplaceAllChar(b, '&', "&amp;");
    ReplaceAllCharConcat(a, b, '&', "&amp;");
    var a2, b2 := ReplaceAllChar(a1, '<', "&lt;"), ReplaceAllChar(b1, '<', "&lt;");
    ReplaceAllCharConcat(a1, b1, '<', "&lt;");
    var a3, b3 := ReplaceAllChar(a2, '>', "&gt;"), ReplaceAllChar(b2, '>', "&gt;");
    ReplaceAllCharConcat(a2, b2, '>', "&gt;");
    var a4, b4 := ReplaceAllChar(a3, '"', "&quot;"), ReplaceAllChar(b3, '"', "&quot;");
    ReplaceAllCharConcat(a3, b3, '"', "&quot;");
    ReplaceAllCharConcat(a4, b4, '\'', "&#039;");
  }

  lemma ReplaceAllCharSingle(x: char, c: char, rep: string)
    ensures ReplaceAllChar([x], c, rep) == if x == c then rep else [x]
  {
    assert [x][1..] == [];
  }

  /** A character the chain does not rewrite passes all five replacements. */
  lemma EscapeHtmlPlain(c: char)
    requires !IsHtmlSpecial(c)
    ensures EscapeHtml([c]) == [c]
  {
    ReplaceAllCharAbsent([c], '&', "&amp;");
    ReplaceAllCharAbsent([c], '<', "&lt;");
    ReplaceAllCharAbsent([c], '>', "&gt;");
    ReplaceAllCharAbsent([c], '"', "&quot;");
    ReplaceAllCharAbsent([c], '\'', "&#039;");
  }

  /** The five stages of the chain on one input, named so that each can be
      rewritten on its own. */
  lemma EscapeHtmlStages(t: string, s1: string, s2: string, s3: string, s4: string)
    requires s1 == ReplaceAllChar(t, '&', "&amp;")
    requires s2 == ReplaceAllChar(s1, '<', "&lt;")
    requires s3 == ReplaceAllChar(s2, '>', "&gt;")
    requires s4 == ReplaceAllChar(s3, '"', "&quot;")
    ensures EscapeHtml(t) == ReplaceAllChar(s4, '\'', "&#039;")
  {
  }

  /** A special character is rewritten by its own replacement; the later
      replacements find nothing to rewrite in the entity it produced. */
  lemma EscapeHtmlSingle(c: char)
    ensures EscapeHtml([c]) == Entity(c)
  {
    EscapeHtmlSingleWith(c, "&amp;", "&lt;", "&gt;", "&quot;", "&#039;");
    EntityCases(c);
  }

  /** `EscapeHtmlSingle` with the five entities passed in, which keeps the
      verifier from evaluating the replacement chain on literals. */
  lemma EscapeHtmlSingleWith(c: char, amp: string, lt: string, gt: string, quot: string, apos: string)
    requires amp == "&amp;" && lt == "&lt;" && gt == "&gt;" && quot == "&quot;" && apos == "&#039;"
    ensures EscapeHtml([c]) ==
      if c == '&' then amp else if c == '<' then lt else if c == '>' then gt
      else if c == '"' then quot else if c == '\'' then apos else [c]
  {
    if c == '&' {
      ReplaceAllCharSingle(c, '&', amp);
      ReplaceAllCharAbsent(amp, '<', lt);
      ReplaceAllCharAbsent(amp, '>', gt);
      ReplaceAllCharAbsent(amp, '"', quot);
      ReplaceAllCharAbsent(amp, '\'', apos);
      EscapeHtmlStages([c], amp, amp, amp, amp);
    } else if c == '<' {
      ReplaceAllCharAbsent([c], '&', amp);
      ReplaceAllCharSingle(c, '<', lt);
      ReplaceAllCharAbsent(lt, '>', gt);
      ReplaceAllCharAbsent(lt, '"', quot);
      ReplaceAllCharAbsent(lt, '\'', apos);
      EscapeHtmlStages([c], [c], lt, lt, lt);
    } else if c == '>' {
      ReplaceAllCharAbsent([c], '&', amp);
      ReplaceAllCharAbsent([c], '<', lt);
      ReplaceAllCharSingle(c, '>', gt);
      ReplaceAllCharAbsent(gt, '"', quot);
      ReplaceAllCharAbsent(gt, '\'', apos);
      EscapeHtmlStages([c], [c], [c], gt, gt);
    } else if c == '"' {
      ReplaceAllCharAbsent([c], '&', amp);
      ReplaceAllCharAbsent([c], '<', lt);
      ReplaceAllCharAbsent([c], '>', gt);
      ReplaceAllCharSingle(c, '"', quot);
      ReplaceAllCharAbsent(quot, '\'', apos);
      EscapeHtmlStages([c], [c], [c], [c], quot);
    } else if c == '\'' {
      ReplaceAllCharAbsent([c], '&', amp);
      ReplaceAllCharAbsent([c], '<', lt);
      ReplaceAllCharAbsent([c], '>', gt);
      ReplaceAllCharAbsent([c], '"', quot);
      ReplaceAllCharSingle(c, '\'', apos);
      EscapeHtmlStages([c], [c], [c], [c], [c]);
    } else {
      EscapeHtmlPlain(c);
    }
  }

  /** Because `&` is replaced first, the chain escapes every character exactly
      once: no entity is escaped a second time. */
  lemma {:induction false} EscapeHtmlIsPerChar(s: string)
    ensures EscapeHtml(s) == EscapeChars(s)
    decreases |s|
  {
    if s == [] {
      assert EscapeHtml(s) == [];
    } else {
      assert s == [s[0]] + s[1..];
      EscapeHtmlConcat([s[0]], s[1..]);
      EscapeHtmlSingle(s[0]);
      EscapeHtmlIsPerChar(s[1..]);
    }
  }

  lemma {:induction false} EscapeCharsConcat(a: string, b: string)
    ensures EscapeChars(a + b) == EscapeChars(a) + EscapeChars(b)
    decreases |a|
  {
    if a == [] {
      assert a + b == b;
    } else {
      assert (a + b)[1..] == a[1..] + b;
      EscapeCharsConcat(a[1..], b);
    }
  }

  /** Text without special characters is left as it is. */
  lemma {:induction false} EscapeCharsIdentity(s: string)
    requires forall i :: 0 <= i < |s| ==> !IsHtmlSpecial(s[i])
    ensures EscapeChars(s) == s
    decreases |s|
  {
    if s != [] {
      EscapeCharsIdentity(s[1..]);
    }
  }

  /** Escaping is undone by decoding the five entities: nothing is lost and
      nothing is escaped twice. */
  lemma {:induction false} UnescapeEscape(s: string)
    ensures Unescape(EscapeHtml(s)) == s
  {
    EscapeHtmlIsPerChar(s);
    UnescapeEscapeChars(s);
  }

  lemma {:induction false} UnescapeEscapeChars(s: string)
    ensures Unescape(EscapeChars(s)) == s
    decreases |s|
  {
    if s != [] {
      UnescapeEscapeChars(s[1..]);
      UnescapeEntity(s[0], EscapeChars(s[1..]));
      assert s == [s[0]] + s[1..];
    }
  }

  /** Decoding reads one entity back as the character it stands for. */
  lemma UnescapeEntity(c: char, rest: string)
    ensures Unescape(Entity(c) + rest) == [c] + Unescape(rest)
  {
    EntityCases(c);
    var e := Entity(c);
    var t := e + rest;
    assert t[..|e|] == e && t[|e|..] == rest;
    assert forall n :: 0 < n <= |t| ==> t[..n][0] == t[0];
    assert forall n :: 1 < n <= |t| ==> t[..n][1] == t[1];
    if c == '&' {
      assert t[..5] == "&amp;";
    } else if c == '<' {
      assert t[..4] == "&lt;";
    } else if c == '>' {
      assert t[..4] == "&gt;";
    } else if c == '"' {
      assert t[..6] == "&quot;";
    } else if c == '\'' {
      assert t[..6] == "&#039;";
    }
  }

  /** The escaped text holds no raw `<`, `>`, `"` or `'`, and each `&` in it
      begins one of the five entities. */
  lemma {:induction false} EscapedIsSafe(s: string)
    ensures forall i :: 0 <= i < |EscapeHtml(s)| ==> EscapeHtml(s)[i] !in "<>\"'"
    ensures forall i :: 0 <= i < |EscapeHtml(s)| && EscapeHtml(s)[i] == '&' ==> StartsEntity(EscapeHtml(s)[i..])
  {
    EscapeHtmlIsPerChar(s);
    EscapeCharsSafe(s);
  }

  predicate StartsEntity(t: string) {
    (|t| >= 5 && t[..5] == "&amp;") || (|t| >= 4 && t[..4] == "&lt;") ||
    (|t| >= 4 && t[..4] == "&gt;") || (|t| >= 6 && t[..6] == "&quot;") ||
    (|t| >= 6 && t[..6] == "&#039;")
  }

  lemma {:induction false} EscapeCharsSafe(s: string)
    ensures forall i :: 0 <= i < |EscapeChars(s)| ==> EscapeChars(s)[i] !in "<>\"'"
    ensures forall i :: 0 <= i < |EscapeChars(s)| && EscapeChars(s)[i] == '&' ==> StartsEntity(EscapeChars(s)[i..])
    decreases |s|
  {
    if s != [] {
      var e, rest := Entity(s[0]), EscapeChars(s[1..]);
      var t := e + rest;
      EscapeCharsSafe(s[1..]);
      forall i | 0 <= i < |t|
        ensures t[i] !in "<>\"'"
        ensures t[i] == '&' ==> StartsEntity(t[i..])
      {
        if i >= |e| {
          assert t[i] == rest[i - |e|];
          assert t[i..] == rest[i - |e|..];
        } else if i == 0 {
          assert t[..|e|] == e;
        }
      }
    }
  }

  /** A string without ASCII characters that is a prefix of the escaped text
      is a prefix of the text itself: every entity starts with the ASCII `&`. */
  lemma {:induction false} EscapedPrefix(t: string, w: string)
    ensures NoAscii(w) && |w| <= |EscapeChars(t)| && EscapeChars(t)[..|w|] == w ==>
              |w| <= |t| && t[..|w|] == w
    decreases |t|
  {
    if NoAscii(w) && |w| <= |EscapeChars(t)| && EscapeChars(t)[..|w|] == w && w != [] {
      var e := Entity(t[0]);
      assert EscapeChars(t)[0] == e[0];
      assert !IsHtmlSpecial(t[0]);
      assert EscapeChars(t)[1..] == EscapeChars(t[1..]);
      assert EscapeChars(t[1..])[..|w| - 1] == w[1..];
      EscapedPrefix(t[1..], w[1..]);
      assert t[..|w|] == [t[0]] + t[1..][..|w| - 1];
    }
  }

  /** A pattern free of ASCII characters that occurs nowhere before index `j`
      of the text occurs nowhere before the matching index of the escaped text. */
  lemma {:induction false} EscapePreservesNoOccurrenceBefore(s: string, p: string, j: nat)
    requires |p| > 0 && NoAscii(p)
    requires j <= |s| && NoOccurrenceBefore(s, p, j)
    ensures NoOccurrenceBefore(EscapeChars(s), p, |EscapeChars(s[..j])|)
    decreases |s|
  {
    if j > 0 {
      var e, rest := Entity(s[0]), EscapeChars(s[1..]);
      var t := EscapeChars(s);
      assert t == e + rest;
      assert s[..j] == [s[0]] + s[1..][..j - 1];
      EscapeCharsConcat([s[0]], s[1..][..j - 1]);
      assert |EscapeChars(s[..j])| == |e| + |EscapeChars(s[1..][..j - 1])|;
      forall k | 0 <= k < j - 1 ensures !OccursAt(s[1..], p, k) {
        assert k + |p| <= |s[1..]| ==> s[1..][k..k + |p|] == s[k + 1..k + 1 + |p|];
        assert OccursAt(s[1..], p, k) ==> OccursAt(s, p, k + 1);
      }
      EscapePreservesNoOccurrenceBefore(s[1..], p, j - 1);
      forall k | 0 <= k < |EscapeChars(s[..j])| ensures !OccursAt(t, p, k) {
        if k < |e| {
          assert OccursAt(t, p, k) ==> t[k] == p[0] && t[k] == e[k];
          if !IsHtmlSpecial(s[0]) {
            EscapedPrefix(s, p);
            assert OccursAt(t, p, k) ==> OccursAt(s, p, 0);
          }
        } else {
          assert k + |p| <= |t| ==> t[k..k + |p|] == rest[k - |e|..k - |e| + |p|];
          assert OccursAt(t, p, k) ==> OccursAt(rest, p, k - |e|);
        }
      }
    }
  }

  /** Escaping cannot create an occurrence of a pattern free of ASCII characters. */
  lemma EscapePreservesNoOccurrence(s: string, p: string)
    requires |p| > 0 && NoAscii(p)
    requires NoOccurrence(s, p)
    ensures NoOccurrence(EscapeChars(s), p)
  {
    EscapePreservesNoOccurrenceBefore(s, p, |s|);
    assert s[..|s|] == s;
  }
}
