/** Word transformations written as comprehensions: the long words of a text in
    upper case, and a dict from each word to its length. */
module Words {
  import opened Wrappers
  import opened Seqs
  import opened Text

  /** The character class `[A-Za-zÁÉÍÓÚÜÑáéíóúüñ]` of a word. */
  predicate WordChar(c: char)
  {
    IsUpperLetter(c) || IsLowerLetter(c)
  }

  predicate IsWord(w: string)
  {
    w != [] && forall i :: 0 <= i < |w| ==> WordChar(w[i])
  }

  /** Length of the longest prefix of `s` made of word characters. */
  function RunLength(s: string): (n: nat)
    ensures n <= |s|
    ensures forall i :: 0 <= i < n ==> WordChar(s[i])
    ensures n < |s| ==> !WordChar(s[n])
  {
    if s == [] || !WordChar(s[0]) then 0 else 1 + RunLength(s[1..])
  }

  /** `re.findall(r"[A-Za-zÁÉÍÓÚÜÑáéíóúüñ]+", s)`: the maximal runs of word characters,
      in order of appearance. */
  function Tokens(s: string): (r: seq<string>)
    ensures forall k :: 0 <= k < |r| ==> IsWord(r[k])
    decreases |s|
  {
    if s == [] then []
    else if !WordChar(s[0]) then Tokens(s[1..])
    else
      var n := RunLength(s);
      [s[..n]] + Tokens(s[n..])
  }

  /** The tokens hold every word character of the text, in order, and nothing else. */
  lemma {:induction false} TokensKeepLetters(s: string)
    ensures Concat(Tokens(s)) == Filter(s, WordChar)
    decreases |s|
  {
    if s != [] {
      if !WordChar(s[0]) {
        TokensKeepLetters(s[1..]);
      } else {
        var n := RunLength(s);
        TokensKeepLetters(s[n..]);
        assert s == s[..n] + s[n..];
        FilterAppend(s[..n], s[n..], WordChar);
        FilterAllTrue(s[..n], WordChar);
        assert ([s[..n]] + Tokens(s[n..]))[1..] == Tokens(s[n..]);
      }
    }
  }

  /** A run stops at the first character outside the class. */
  lemma {:induction false} RunLengthOfWord(w: string, rest: string)
    requires IsWord(w)
    requires rest == [] || !WordChar(rest[0])
    ensures RunLength(w + rest) == |w|
    decreases |w|
  {
    var s := w + rest;
    assert s[0] == w[0];
    if |w| == 1 {
      assert s[1..] == rest;
    } else {
      assert s[1..] == w[1..] + rest;
      assert IsWord(w[1..]) by {
        forall i | 0 <= i < |w[1..]| ensures WordChar(w[1..][i]) {
          assert w[1..][i] == w[i + 1];
        }
      }
      RunLengthOfWord(w[1..], rest);
    }
  }

  /** Tokenising undoes joining words with spaces: the separators between tokens are
      dropped, and adjacent words stay apart. */
  lemma {:induction false} TokensOfJoin(ws: seq<string>)
    requires forall k :: 0 <= k < |ws| ==> IsWord(ws[k])
    ensures Tokens(Join(ws, " ")) == ws
    decreases |ws|
  {
    if |ws| == 1 {
      TokensOfWordThen(ws[0], []);
      assert ws[0] + [] == ws[0];
    } else if |ws| > 1 {
      var rest := Join(ws[1..], " ");
      assert Join(ws, " ") == ws[0] + (" " + rest);
      TokensOfWordThen(ws[0], " " + rest);
      assert (" " + rest)[1..] == rest;
      TokensOfJoin(ws[1..]);
      assert ws == [ws[0]] + ws[1..];
    }
  }

  /** A word followed by a text that does not go on with a word character is one
      token, and the text's tokens come after it. */
  lemma TokensOfWordThen(w: string, rest: string)
    requires IsWord(w)
    requires rest == [] || !WordChar(rest[0])
    ensures Tokens(w + rest) == [w] + Tokens(rest)
  {
    var s := w + rest;
    RunLengthOfWord(w, rest);
    assert s[0] == w[0];
    assert s[..|w|] == w;
    assert s[|w|..] == rest;
  }

  /** A character outside the class yields no token. With `TokensOfWordThen` and
      `Tokens([]) == []` this fixes `Tokens` as the maximal runs of word characters. */
  lemma TokensSkip(c: char, rest: string)
    requires !WordChar(c)
    ensures Tokens([c] + rest) == Tokens(rest)
  {
    assert ([c] + rest)[1..] == rest;
  }

  /** A word strictly longer than `minLen`. */
  function Longer(minLen: int): string -> bool
  {
    w => |w| > minLen
  }

  /** `palabras_mayusculas_largas(texto, min_longitud)`: the tokens strictly longer
      than `min_longitud`, upper-cased, in order of appearance and with repeats. Every
      result is an upper-case word of the same length as its token. */
  function LongUpperWords(text: string, minLen: int): (r: seq<string>)
    ensures |r| == Count(Tokens(text), Longer(minLen))
    ensures IsSubseq(r, Map(Tokens(text), Upper))
    ensures forall k :: 0 <= k < |r| ==> |r[k]| > minLen && r[k] != []
    ensures forall k, i :: 0 <= k < |r| && 0 <= i < |r[k]| ==> IsUpperLetter(r[k][i])
  {
    var ts := Tokens(text);
    var kept := Filter(ts, Longer(minLen));
    SubseqMap(kept, ts, Upper);
    forall k | 0 <= k < |kept| ensures |Upper(kept[k])| > minLen && Upper(kept[k]) != [] {
      assert Longer(minLen)(kept[k]);
      SubseqMember(kept, ts, kept[k]);
    }
    forall k, i | 0 <= k < |kept| && 0 <= i < |kept[k]| ensures IsUpperLetter(Upper(kept[k])[i]) {
      SubseqMember(kept, ts, kept[k]);
      assert WordChar(kept[k][i]);
    }
    Map(kept, Upper)
  }

  /** The upper-cased result denotes the same words: lower-casing a result gives back
      its token, lower-cased. */
  lemma UpperKeepsWord(w: string)
    requires IsWord(w)
    ensures Lower(Upper(w)) == Lower(w)
  {
    forall i | 0 <= i < |w| ensures LowerChar(UpperChar(w[i])) == LowerChar(w[i]) {
      if IsLowerLetter(w[i]) {
        assert LowerChar(w[i]) == w[i];
      }
    }
  }

  /** The length of a word, as `longitudes_por_palabra` records it. */
  function LengthEntry(): string -> Option<(string, int)>
  {
    w => Some((w, |w|))
  }

  /** `longitudes_por_palabra(palabras)`: `{p: len(p) for p in palabras}` as a dict's
      entries in insertion order. */
  function WordLengths(ws: seq<string>): seq<(string, int)>
  {
    Entries(ws, LengthEntry())
  }

  /** The dict's keys are exactly the input words, each once, and each maps to its
      length; repeated words change nothing. */
  lemma WordLengthsSpec(ws: seq<string>, w: string)
    ensures DistinctKeys(WordLengths(ws))
    ensures w in AsMap(WordLengths(ws)) <==> w in ws
    ensures w in AsMap(WordLengths(ws)) ==> AsMap(WordLengths(ws))[w] == |w|
  {
    EntriesAsMap(ws, LengthEntry());
    CollectSource(ws, LengthEntry(), w);
    if w in ws {
      var i :| 0 <= i < |ws| && ws[i] == w;
      assert LengthEntry()(ws[i]).value.0 == w;
    }
  }

  /** The menu feeds the long words into the length dict: every length it records is
      above the threshold. */
  lemma LengthsOfLongWords(text: string, minLen: int, w: string)
    requires w in AsMap(WordLengths(LongUpperWords(text, minLen)))
    ensures AsMap(WordLengths(LongUpperWords(text, minLen)))[w] > minLen
  {
    WordLengthsSpec(LongUpperWords(text, minLen), w);
  }
}
