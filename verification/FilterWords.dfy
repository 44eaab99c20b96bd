/** The word filter of FilterWords.php: listed words, indexed by their first character,
    are masked in a text. Words are trimmed and the mask is one character; PHP's loose
    comparison of numeric strings, the cache and the database are not part of this model. */
module FilterWords {

  /** The word v begins at place i of the text. */
  predicate Occurs(content: string, i: nat, v: string) { i + |v| <= |content| && content[i..i + |v|] == v }

  /** Place k is covered by a word of the list that begins before place n. */
  predicate CoveredBefore(content: string, words: set<string>, n: nat, k: nat)
  {
    exists i, v :: v in words && 0 <= i < n && Occurs(content, i, v) && i <= k < i + |v|
  }

  /** Place k is covered by an occurrence of a word of the list. */
  predicate Covered(content: string, words: set<string>, k: nat)
  {
    exists i, v :: v in words && 0 <= i < |content| && Occurs(content, i, v) && i <= k < i + |v|
  }

  class Filter {
    /** classArr: the words by their first character. */
    var classArr: map<char, seq<string>>
    ghost var words: set<string>

    /** Every word of the list is once in the class of its first character, and nothing
        else is in any class. */
    ghost predicate Valid()
      reads this
    {
      && (forall c, j :: c in classArr && 0 <= j < |classArr[c]| ==>
            classArr[c][j] in words && classArr[c][j] != "" && classArr[c][j][0] == c)
      && (forall c, i, j :: c in classArr && 0 <= i < j < |classArr[c]| ==> classArr[c][i] != classArr[c][j])
      && (forall v :: v in words ==> v != "" && v[0] in classArr && v in classArr[v[0]])
    }

    /** __construct. The class of an empty word is never asked for. */
    constructor (list: seq<string>)
      ensures Valid() && words == set v | v in list && v != ""
    {
      classArr := map[];
      words := {};
      new;
      for n := 0 to |list|
        invariant Valid() && words == set v | v in list[..n] && v != ""
      {
        var v := list[n];
        assert list[..n + 1] == list[..n] + [v];
        if v != "" {
          AddWord(v);
        }
      }
      assert list[..|list|] == list;
    }

    /** One word goes into the class of its first character, unless it is there. */
    method AddWord(v: string)
      requires Valid() && v != ""
      modifies this
      ensures Valid() && words == old(words) + {v}
    {
      var oneStr := v[0];
      var words1 := if oneStr in classArr then classArr[oneStr] else [];
      if v !in words1 {
        words1 := words1 + [v];
      }
      classArr := classArr[oneStr := words1];
      words := words + {v};
    }

    /** replace: a character is masked exactly when some occurrence of some word in the
        original text covers it. */
    method Replace(content: string, mask: char) returns (result: string)
      requires Valid()
      ensures |result| == |content|
      ensures forall k :: 0 <= k < |content| ==> result[k] == if Covered(content, words, k) then mask else content[k]
    {
      hide CoveredBefore, CoveredHere, Covered;
      result := content;
      CoveredEnds(content, words);
      for i := 0 to |content|
        invariant |result| == |content|
        invariant forall k :: 0 <= k < |content| ==>
                    result[k] == if CoveredBefore(content, words, i, k) then mask else content[k]
      {
        var word := content[i];
        var here: seq<string> := [];
        if word in classArr {
          here := classArr[word];
        }
        ghost var before := result;
        CoveredByNone(content, i);
        assert here[..0] == [];
        for j := 0 to |here|
          invariant |result| == |content|
          invariant forall k :: 0 <= k < |content| ==>
                      result[k] == if CoveredHere(content, here[..j], i, k) then mask else before[k]
        {
          var v := here[j];
          var length := |v|;
          var end := if i + length < |content| then i + length else |content|;
          assert here[..j + 1] == here[..j] + [v];
          CoveredNext(content, here[..j], v, i);
          if content[i..end] == v {
            result := result[..i] + seq(length, _ => mask) + result[i + length..];
          }
        }
        assert here[..|here|] == here;
        ClassIsEnough(content, here, i);
      }
    }

    /** The class of a character holds all the words that can begin there. */
    lemma ClassIsEnough(content: string, here: seq<string>, i: nat)
      requires Valid() && i < |content| && here == if content[i] in classArr then classArr[content[i]] else []
      ensures forall k: nat ::
                CoveredBefore(content, words, i + 1, k)
                <==> CoveredBefore(content, words, i, k) || CoveredHere(content, here, i, k)
    {
      forall k: nat
        ensures CoveredBefore(content, words, i + 1, k)
                <==> CoveredBefore(content, words, i, k) || CoveredHere(content, here, i, k)
      {
        if CoveredBefore(content, words, i + 1, k) && !CoveredBefore(content, words, i, k) {
          var h, v :| v in words && 0 <= h < i + 1 && Occurs(content, h, v) && h <= k < h + |v|;
          assert v[0] == content[i..i + |v|][0];
          var j :| 0 <= j < |here| && here[j] == v;
        }
        if CoveredHere(content, here, i, k) {
          var j :| 0 <= j < |here| && Occurs(content, i, here[j]) && i <= k < i + |here[j]|;
          assert here[j] in words;
        }
      }
    }
  }

  /** One of these words begins at i and covers k. */
  predicate CoveredHere(content: string, here: seq<string>, i: nat, k: nat)
  {
    exists j :: 0 <= j < |here| && Occurs(content, i, here[j]) && i <= k < i + |here[j]|
  }

  lemma CoveredByNone(content: string, i: nat)
    ensures forall k: nat :: !CoveredHere(content, [], i, k)
  {
  }

  lemma CoveredEnds(content: string, words: set<string>)
    ensures forall k: nat :: !CoveredBefore(content, words, 0, k)
    ensures forall k: nat :: CoveredBefore(content, words, |content|, k) <==> Covered(content, words, k)
  {
  }

  lemma CoveredNext(content: string, here: seq<string>, v: string, i: nat)
    ensures forall k: nat :: CoveredHere(content, here + [v], i, k)
                        <==> CoveredHere(content, here, i, k) || (Occurs(content, i, v) && i <= k < i + |v|)
  {
    var t := here + [v];
    forall k: nat
      ensures CoveredHere(content, t, i, k)
              <==> CoveredHere(content, here, i, k) || (Occurs(content, i, v) && i <= k < i + |v|)
    {
      if j :| 0 <= j < |here| && Occurs(content, i, here[j]) && i <= k < i + |here[j]| { assert t[j] == here[j]; }
      if Occurs(content, i, v) && i <= k < i + |v| { assert t[|here|] == v; }
    }
  }
}
