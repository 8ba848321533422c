/**
 * Deciding whether apostrophes at the edges of a word belong to the word
 * (ephox.robin.util.WordSanitiser). Apostrophes that do not belong are moved
 * out of the word into the `left` / `right` fields of its WordScope.
 */
module WordSanitiser {
  import opened Perhaps

  /** `WordScope(word, left, right)`: a word and what was found just outside it. */
  datatype WordScope = WordScope(word: string, left: Option<string>, right: Option<string>)

  /** The apostrophe, as the one-character string the source compares against. */
  const Apostrophe: string := "'"

  /** Words in which a doubled leading apostrophe is checked for. */
  const Whitelist: seq<string> := ["'twas"]

  // ---------------------------------------------------------------------------
  // The JavaScript string operations the rules are written with

  /** `pat` occurs somewhere in `s`. */
  ghost predicate Contains(s: string, pat: string)
  {
    exists i :: 0 <= i <= |s| && pat <= s[i..]
  }

  /** `s.indexOf(pat)`: the first offset at which `pat` occurs, or -1. */
  function IndexOf(s: string, pat: string): (r: int)
    ensures r == -1 <==> !Contains(s, pat)
    ensures r != -1 ==> 0 <= r <= |s| && pat <= s[r..]
    ensures r != -1 ==> forall i :: 0 <= i < r ==> !(pat <= s[i..])
  {
    if pat <= s then 0
    else if s == [] then -1
    else
      var k := IndexOf(s[1..], pat);
      assert forall i :: 1 <= i <= |s| ==> s[1..][i - 1..] == s[i..];
      if k == -1 then -1 else k + 1
  }

  /** A bound of `substring`, clamped into `[0, n]`. */
  function Clamp(i: int, n: nat): (r: nat)
    ensures r <= n
    ensures 0 <= i <= n ==> r == i
  {
    if i < 0 then 0 else if i > n then n else i
  }

  /** `s.substring(start, end)`: both bounds clamped, swapped when out of order. */
  function Substring(s: string, start: int, end: int): (r: string)
    ensures 0 <= start <= end <= |s| ==> r == s[start..end]
    ensures 0 <= end <= start <= |s| ==> r == s[end..start]
    ensures 0 <= start <= |s| <= end ==> r == s[start..]
    ensures start < 0 && 0 <= end <= |s| ==> r == s[..end]
    ensures |r| <= |s|
  {
    var a, b := Clamp(start, |s|), Clamp(end, |s|);
    if a <= b then s[a..b] else s[b..a]
  }

  /** `s.charAt(i)`: the character as a string, or "" out of range. */
  function CharAt(s: string, i: int): (r: string)
    ensures 0 <= i < |s| ==> r == [s[i]]
    ensures !(0 <= i < |s|) ==> r == ""
  {
    if 0 <= i < |s| then [s[i]] else ""
  }

  // ---------------------------------------------------------------------------
  // The rules

  /** `isQuote(s)`: `s` is exactly the apostrophe. */
  function IsQuote(s: string): (b: bool)
    ensures b <==> |s| == 1 && s[0] == '\''
  {
    s == Apostrophe
  }

  /** `trimStart`: drops the first character and records an apostrophe on the left. */
  function TrimStart(ws: WordScope): (r: WordScope)
    ensures r.word == if ws.word == [] then [] else ws.word[1..]
    ensures r.left == Some("'") && r.right == ws.right
  {
    WordScope(Substring(ws.word, 1, |ws.word|), Some(Apostrophe), ws.right)
  }

  /** `trimEnd`: drops the last character and records an apostrophe on the right. */
  function TrimEnd(ws: WordScope): (r: WordScope)
    ensures r.word == if ws.word == [] then [] else ws.word[..|ws.word| - 1]
    ensures r.left == ws.left && r.right == Some("'")
  {
    WordScope(Substring(ws.word, 0, |ws.word| - 1), ws.left, Some(Apostrophe))
  }

  /**
   * `rhs`: a trailing apostrophe leaves the word unless the word is shorter
   * than two characters or the apostrophe is doubled.
   */
  function Rhs(ws: WordScope): (r: WordScope)
    ensures var w := ws.word;
      if |w| >= 2 && w[|w| - 1] == '\'' && w[|w| - 2] != '\'' then
        r == WordScope(w[..|w| - 1], ws.left, Some("'"))
      else
        r == ws
  {
    var word := ws.word;
    var trailing := |word| >= 2 && IsQuote(CharAt(word, |word| - 1)) && !IsQuote(CharAt(word, |word| - 2));
    if trailing then TrimEnd(ws) else ws
  }

  /** `Arr.exists(whitelist, x => word.indexOf(x) > -1)`. */
  function Whitelisted(word: string): (b: bool)
    ensures b <==> Contains(word, "'twas")
  {
    assert Whitelist[0] == "'twas";
    exists i :: 0 <= i < |Whitelist| && IndexOf(word, Whitelist[i]) > -1
  }

  /**
   * `lhs`: the word's first one (two, when the word contains 'twas) characters
   * are checked; when they are all apostrophes and the character after them
   * is not an apostrophe, the first character leaves the word.
   */
  function Lhs(ws: WordScope): (r: WordScope)
    ensures var w := ws.word;
      var n := if Contains(w, "'twas") then 2 else 1;
      if (forall i :: 0 <= i < n && i < |w| ==> w[i] == '\'') && !(n < |w| && w[n] == '\'') then
        r == WordScope(if w == [] then [] else w[1..], Some("'"), ws.right)
      else
        r == ws
  {
    var word := ws.word;
    var apostrophes := if Whitelisted(word) then 2 else 1;
    var quoted := Substring(word, 0, apostrophes);
    var leading := (forall i :: 0 <= i < |quoted| ==> IsQuote([quoted[i]])) && !IsQuote(CharAt(word, apostrophes));
    assert |quoted| == if apostrophes <= |word| then apostrophes else |word|;
    assert forall i :: 0 <= i < |quoted| ==> quoted[i] == word[i];
    if leading then TrimStart(ws) else ws
  }

  /** `scope`: the right edge is settled first, then the left edge. */
  function Scope(ws: WordScope): (r: WordScope)
    ensures |ws.word| - 2 <= |r.word| <= |ws.word|
    ensures r.word == ws.word[..|r.word|] || (|r.word| < |ws.word| && r.word == ws.word[1..][..|r.word|])
    ensures r.right == ws.right || r.right == Some("'")
    ensures r.left == ws.left || r.left == Some("'")
  {
    Lhs(Rhs(ws))
  }

  /** `text`: the word with its stray edge apostrophes removed. */
  function Text(word: string): (r: string)
    ensures |word| - 2 <= |r| <= |word|
    ensures r == word[..|r|] || (|r| < |word| && r == word[1..][..|r|])
  {
    Scope(WordScope(word, None, None)).word
  }

  // ---------------------------------------------------------------------------
  // Properties

  /** The whitelist keeps the leading apostrophe of 'twas. */
  lemma TwasKept()
    ensures Text("'twas") == "'twas"
  {
    var w := "'twas";
    assert Contains(w, "'twas") by { assert "'twas" <= w[0..]; }
    assert w[1] == 't';
  }

  /** Outside the whitelist a single leading apostrophe is removed: "'tis" becomes "tis". */
  lemma ApostropheDroppedBeforeOtherWords()
    ensures Text("'tis") == "tis"
  {
  }

  /** A word without any apostrophe comes back unchanged. */
  lemma NoApostropheUnchanged(word: string)
    requires '\'' !in word
    ensures Text(word) == word
  {
    var ws := WordScope(word, None, None);
    assert Rhs(ws) == ws;
    assert !Contains(word, "'twas") by {
      forall i | 0 <= i <= |word| ensures !("'twas" <= word[i..]) {
        if i < |word| {
          assert word[i..][0] == word[i] && word[i] in word;
        }
      }
    }
    if word != [] {
      assert word[0] in word;
    }
  }

  /**
   * Each outer apostrophe of a quoted word is taken out and recorded on its
   * side.
   */
  lemma QuotedWordUnwrapped()
    ensures Scope(WordScope("'hello'", None, None)) == WordScope("hello", Some("'"), Some("'"))
  {
    var w := "'hello'";
    var r := Rhs(WordScope(w, None, None));
    assert r == WordScope("'hello", None, Some("'")) by { assert w[..6] == "'hello"; }
    assert !Contains("'hello", "'twas") by {
      forall i | 0 <= i <= 6 ensures !("'twas" <= "'hello"[i..]) {
        if i <= 1 { assert "'hello"[i..][1] != 'w' || "'hello"[i..][0] != '\''; }
      }
    }
    assert "'hello"[1..] == "hello";
  }

  /**
   * An empty word passes the leading-apostrophe test vacuously, so `lhs`
   * reports an apostrophe on the left although the word holds none.
   */
  lemma EmptyWordReportsLeftApostrophe(left: Option<string>, right: Option<string>)
    ensures Lhs(WordScope("", left, right)) == WordScope("", Some("'"), right)
    ensures Text("") == ""
  {
  }
}
