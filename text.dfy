/**
 * The answer sanitiser of the AI branch in index.js: trim the provider's
 * text, split it on runs of whitespace, take the first piece and delete
 * every character outside `\w`. Whitespace and word characters are the
 * ASCII ones.
 */
module Text {
  import opened Seqs

  /** `\s` and the characters `trim` removes, restricted to ASCII. */
  predicate IsSpace(c: char)
  {
    c == ' ' || c == '\t' || c == '\n' || c == '\r' || c == '\U{B}' || c == '\U{C}'
  }

  /** `\w`: an ASCII letter, digit or underscore. */
  predicate IsWordChar(c: char)
  {
    ('a' <= c <= 'z') || ('A' <= c <= 'Z') || ('0' <= c <= '9') || c == '_'
  }

  /** `s` without its leading whitespace. */
  function TrimStart(s: string): (r: string)
    ensures |r| <= |s| && r == s[|s| - |r|..]
    ensures forall k :: 0 <= k < |s| - |r| ==> IsSpace(s[k])
    ensures r != [] ==> !IsSpace(r[0])
  {
    if s != [] && IsSpace(s[0]) then TrimStart(s[1..]) else s
  }

  /** `s` without its trailing whitespace. */
  function TrimEnd(s: string): (r: string)
    ensures |r| <= |s| && r == s[..|r|]
    ensures forall k :: |r| <= k < |s| ==> IsSpace(s[k])
    ensures r != [] ==> !IsSpace(r[|r| - 1])
  {
    if s != [] && IsSpace(s[|s| - 1]) then TrimEnd(s[..|s| - 1]) else s
  }

  /** `String.prototype.trim`. */
  function Trim(s: string): string
  {
    TrimEnd(TrimStart(s))
  }

  /**
   * `Trim(s)` is the part of `s` between its leading and trailing
   * whitespace: empty exactly when `s` is all whitespace, and otherwise
   * starting and ending with a non-space character of `s`.
   */
  lemma {:induction false} TrimSpec(s: string)
    ensures Trim(s) == [] <==> forall k :: 0 <= k < |s| ==> IsSpace(s[k])
    ensures Trim(s) != [] ==> !IsSpace(Trim(s)[0]) && !IsSpace(Trim(s)[|Trim(s)| - 1])
    ensures Trim(s) == s[|s| - |TrimStart(s)|..][..|Trim(s)|]
  {
    var t := TrimStart(s);
    var r := TrimEnd(t);
    var i := |s| - |t|;
    if r == [] {
      assert t == [];
    } else {
      assert r[0] == t[0] == s[i];
    }
  }

  /** `s.split(/\s+/)[0]`: the characters before the first whitespace. */
  function FirstToken(s: string): (r: string)
    ensures |r| <= |s| && r == s[..|r|]
    ensures forall k :: 0 <= k < |r| ==> !IsSpace(r[k])
    ensures |r| < |s| ==> IsSpace(s[|r|])
  {
    if s == [] || IsSpace(s[0]) then [] else [s[0]] + FirstToken(s[1..])
  }

  /** `s.replace(/[^\w]/g, "")`. */
  function KeepWordChars(s: string): string
  {
    Filter(IsWordChar, s)
  }

  /**
   * The one-word answer the handler returns for the provider's text: the
   * word characters of the first token of the trimmed text, in order, each
   * as often as it occurs there, and nothing else.
   */
  function Sanitize(content: string): (w: string)
    ensures forall k :: 0 <= k < |w| ==> IsWordChar(w[k]) && !IsSpace(w[k])
    ensures IsSubsequence(w, FirstToken(Trim(content)))
    ensures forall c :: IsWordChar(c) ==> multiset(w)[c] == multiset(FirstToken(Trim(content)))[c]
  {
    KeepWordChars(FirstToken(Trim(content)))
  }

  /**
   * A reply made of one word of word characters, surrounded by any
   * whitespace and followed by anything after a space, sanitises to that word.
   */
  lemma {:induction false} SanitizeOneWord(lead: string, word: string, rest: string)
    requires forall k :: 0 <= k < |lead| ==> IsSpace(lead[k])
    requires word != [] && forall k :: 0 <= k < |word| ==> IsWordChar(word[k])
    requires rest == [] || IsSpace(rest[0])
    ensures Sanitize(lead + word + rest) == word
  {
    var tail := TrimOneWord(lead, word, rest);
    var token := FirstToken(word + tail);
    FirstTokenOfWord(word, tail);
    assert token == word;
    FilterKeepsAll(IsWordChar, word);
  }

  /** The answer is already clean: sanitising it again returns it unchanged. */
  lemma SanitizeIdempotent(content: string)
    ensures Sanitize(Sanitize(content)) == Sanitize(content)
  {
    var w := Sanitize(content);
    if w != [] {
      assert [] + w + [] == w;
      SanitizeOneWord([], w, []);
    }
  }

  lemma {:induction false} TrimOneWord(lead: string, word: string, rest: string) returns (tail: string)
    requires forall k :: 0 <= k < |lead| ==> IsSpace(lead[k])
    requires word != [] && forall k :: 0 <= k < |word| ==> IsWordChar(word[k])
    requires rest == [] || IsSpace(rest[0])
    ensures Trim(lead + word + rest) == word + tail
    ensures tail == [] || IsSpace(tail[0])
  {
    var s := lead + word + rest;
    assert s == lead + (word + rest);
    TrimStartSkips(lead, word + rest);
    TrimEndKeeps(word, rest);
    tail := TrimEnd(rest);
    assert tail == [] || tail[0] == rest[0];
    assert Trim(s) == word + tail;
  }

  lemma {:induction false} TrimStartSkips(lead: string, s: string)
    requires forall k :: 0 <= k < |lead| ==> IsSpace(lead[k])
    requires s != [] && !IsSpace(s[0])
    ensures TrimStart(lead + s) == s
  {
    if lead != [] {
      assert (lead + s)[1..] == lead[1..] + s;
      TrimStartSkips(lead[1..], s);
    }
  }

  lemma {:induction false} TrimEndKeeps(p: string, q: string)
    requires p != [] && !IsSpace(p[|p| - 1])
    ensures TrimEnd(p + q) == p + TrimEnd(q)
  {
    if q == [] {
      assert p + q == p;
    } else {
      var pq := p + q;
      assert pq[|pq| - 1] == q[|q| - 1];
      if IsSpace(q[|q| - 1]) {
        assert pq[..|pq| - 1] == p + q[..|q| - 1];
        TrimEndKeeps(p, q[..|q| - 1]);
      }
    }
  }

  lemma {:induction false} FirstTokenOfWord(word: string, rest: string)
    requires forall k :: 0 <= k < |word| ==> IsWordChar(word[k])
    requires rest == [] || IsSpace(rest[0])
    ensures FirstToken(word + rest) == word
  {
    if word != [] {
      assert (word + rest)[1..] == word[1..] + rest;
      FirstTokenOfWord(word[1..], rest);
    }
  }
}
