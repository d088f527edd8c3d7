/**
 * The string operations both halves of the system rely on: JavaScript's
 * String.prototype.trim and Python's str.strip, each on its own set of ASCII
 * whitespace, Python's str.lower on ASCII letters, and Python's substring
 * test `pattern in text`.
 *
 * The functions carry no quantified postconditions, so that every caller
 * does not pay for them; what they compute is stated by the lemmas below
 * each one.
 */
module Text {

  /**
   * Whose whitespace: JavaScript's `trim` removes tab, line feed, vertical tab,
   * form feed, carriage return and space; Python's `strip` removes those and
   * also the four separators U+001C to U+001F, for which `str.isspace` holds.
   */
  datatype Whitespace = JavaScript | Python

  predicate IsSpace(ws: Whitespace, c: char) {
    c == ' ' || '\t' <= c <= '\r' || (ws == Python && '\U{1C}' <= c <= '\U{1F}')
  }

  /** Every character of s is whitespace (this includes the empty string). */
  predicate Blank(ws: Whitespace, s: string) {
    forall i :: 0 <= i < |s| ==> IsSpace(ws, s[i])
  }

  function TrimStart(ws: Whitespace, s: string): string {
    if |s| > 0 && IsSpace(ws, s[0]) then TrimStart(ws, s[1..]) else s
  }

  function TrimEnd(ws: Whitespace, s: string): string {
    if |s| > 0 && IsSpace(ws, s[|s| - 1]) then TrimEnd(ws, s[..|s| - 1]) else s
  }

  /** `s.trim()` for JavaScript, `s.strip()` for Python. */
  function Trim(ws: Whitespace, s: string): string {
    TrimEnd(ws, TrimStart(ws, s))
  }

  /** TrimStart drops exactly the leading whitespace: it keeps a suffix that does not start with whitespace. */
  lemma {:induction false} TrimStartSpec(ws: Whitespace, s: string)
    ensures var r := TrimStart(ws, s);
      && |r| <= |s| && r == s[|s| - |r|..]
      && Blank(ws, s[..|s| - |r|])
      && (r == [] || !IsSpace(ws, r[0]))
  {
    if |s| > 0 && IsSpace(ws, s[0]) {
      TrimStartSpec(ws, s[1..]);
      var r := TrimStart(ws, s);
      var k := |s| - |r|;
      forall i | 0 <= i < k ensures IsSpace(ws, s[..k][i]) {
        if i > 0 {
          assert s[..k][i] == s[1..][..k - 1][i - 1];
        }
      }
    }
  }

  /** TrimEnd drops exactly the trailing whitespace: it keeps a prefix that does not end with whitespace. */
  lemma {:induction false} TrimEndSpec(ws: Whitespace, s: string)
    ensures var r := TrimEnd(ws, s);
      && |r| <= |s| && r == s[..|r|]
      && Blank(ws, s[|r|..])
      && (r == [] || !IsSpace(ws, r[|r| - 1]))
  {
    if |s| > 0 && IsSpace(ws, s[|s| - 1]) {
      TrimEndSpec(ws, s[..|s| - 1]);
      var r := TrimEnd(ws, s);
      forall i | |r| <= i < |s| ensures IsSpace(ws, s[i]) {
        if i < |s| - 1 {
          assert s[i] == s[..|s| - 1][|r|..][i - |r|];
        }
      }
    }
  }

  /** A string is blank exactly when both pieces of any split of it are. */
  lemma BlankSplit(ws: Whitespace, s: string, k: nat)
    requires k <= |s|
    ensures Blank(ws, s) <==> Blank(ws, s[..k]) && Blank(ws, s[k..])
  {
    if Blank(ws, s[..k]) && Blank(ws, s[k..]) {
      forall i | 0 <= i < |s| ensures IsSpace(ws, s[i]) {
        if i < k {
          assert s[i] == s[..k][i];
        } else {
          assert s[i] == s[k..][i - k];
        }
      }
    }
  }

  /** Trimming gives the empty string exactly for the strings made of whitespace only. */
  lemma TrimEmptyIffBlank(ws: Whitespace, s: string)
    ensures Trim(ws, s) == "" <==> Blank(ws, s)
  {
    var t := TrimStart(ws, s);
    TrimStartSpec(ws, s);
    TrimEndSpec(ws, t);
    assert s == s[..|s| - |t|] + t;
    assert s[|s| - |t|..] == t;
    BlankSplit(ws, s, |s| - |t|);
    assert Blank(ws, t) <==> t == [];
    assert t[0..] == t;
  }

  /**
   * Python's `strip` removes everything JavaScript's `trim` removes, and a
   * string is cleared by both exactly when it has none of U+001C to U+001F.
   */
  lemma PythonStripsMore(s: string)
    ensures Blank(JavaScript, s) ==> Trim(Python, s) == ""
    ensures Trim(Python, "\U{1C}") == "" && Trim(JavaScript, "\U{1C}") == "\U{1C}"
  {
    TrimEmptyIffBlank(Python, s);
    assert Trim(Python, "\U{1C}") == "" by {
      TrimEmptyIffBlank(Python, "\U{1C}");
    }
    assert Trim(JavaScript, "\U{1C}") == "\U{1C}" by {
      assert TrimStart(JavaScript, "\U{1C}") == "\U{1C}";
    }
  }

  function LowerChar(c: char): char {
    if 'A' <= c <= 'Z' then (c as int - 'A' as int + 'a' as int) as char else c
  }

  /** Python's str.lower, letter by letter; the length never changes. */
  function Lower(s: string): (r: string)
    ensures |r| == |s|
  {
    if s == [] then [] else [LowerChar(s[0])] + Lower(s[1..])
  }

  /** Lower maps every character on its own, upper-case ASCII letters to lower case and the rest to themselves. */
  lemma {:induction false} LowerAt(s: string, i: nat)
    requires i < |s|
    ensures Lower(s)[i] == LowerChar(s[i])
    ensures 'A' <= s[i] <= 'Z' ==> 'a' <= Lower(s)[i] <= 'z'
    ensures !('A' <= s[i] <= 'Z') ==> Lower(s)[i] == s[i]
  {
    if i > 0 {
      LowerAt(s[1..], i - 1);
    }
  }

  /** Lower-casing an already lower-cased string changes nothing. */
  lemma LowerIdempotent(s: string)
    ensures Lower(Lower(s)) == Lower(s)
  {
    var l := Lower(s);
    forall i | 0 <= i < |s| ensures Lower(l)[i] == l[i] {
      LowerAt(s, i);
      LowerAt(l, i);
    }
  }

  /** pattern occurs in text starting at index i. */
  ghost predicate OccursAt(text: string, pattern: string, i: int) {
    0 <= i && i + |pattern| <= |text| && text[i..i + |pattern|] == pattern
  }

  /** An occurrence in a string is still one after more text is appended. */
  lemma OccursInPrefix(text: string, more: string, pattern: string, i: int)
    requires OccursAt(text, pattern, i)
    ensures OccursAt(text + more, pattern, i)
  {
    assert (text + more)[i..i + |pattern|] == text[i..i + |pattern|];
  }

  /** The scan behind Python's `pattern in text`, from index start on. */
  function ContainsFrom(text: string, pattern: string, start: nat): bool
    decreases |text| - start
  {
    if start + |pattern| > |text| then false
    else if text[start..start + |pattern|] == pattern then true
    else ContainsFrom(text, pattern, start + 1)
  }

  /** Python's `pattern in text`. */
  function Contains(text: string, pattern: string): bool {
    ContainsFrom(text, pattern, 0)
  }

  lemma {:induction false} ContainsFromSpec(text: string, pattern: string, start: nat)
    ensures ContainsFrom(text, pattern, start) <==> exists i :: start <= i && OccursAt(text, pattern, i)
    decreases |text| - start
  {
    if start + |pattern| > |text| {
    } else if text[start..start + |pattern|] == pattern {
      assert OccursAt(text, pattern, start);
    } else {
      ContainsFromSpec(text, pattern, start + 1);
    }
  }

  /** `pattern in text` holds exactly when pattern is a contiguous piece of text. */
  lemma ContainsSpec(text: string, pattern: string)
    ensures Contains(text, pattern) <==> exists i :: OccursAt(text, pattern, i)
  {
    ContainsFromSpec(text, pattern, 0);
  }

  /** Any of the patterns occurs in text, tried in list order with an early return. */
  function ContainsAny(text: string, patterns: seq<string>): (r: bool)
    ensures r <==> exists p :: p in patterns && Contains(text, p)
  {
    if patterns == [] then false
    else if Contains(text, patterns[0]) then true
    else
      assert forall p :: p in patterns <==> p == patterns[0] || p in patterns[1..];
      ContainsAny(text, patterns[1..])
  }
}
