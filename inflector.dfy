/** The part of the Rails 2 inflector the asset model uses: `camelize`, and
    `classify` restricted to camelizing (see README "Left out"). */
module Inflector {

  import opened RubyText

  /** `camelize` after its first character: `gsub(/(?:^|_)(.)/) { $1.upcase }`
      away from the start of the string, so an underscore and the character
      after it become that character upper-cased. */
  function CamelizeRest(s: string): (r: string)
    decreases |s|
  {
    if |s| >= 2 && s[0] == '_' then [UpcaseChar(s[1])] + CamelizeRest(s[2..])
    else if |s| == 0 then ""
    else [s[0]] + CamelizeRest(s[1..])
  }

  /** Rails 2 `camelize` with the first letter upper-cased: the first character
      is upper-cased, and so is every character that follows an underscore,
      which is dropped. */
  function Camelize(s: string): (r: string)
  {
    if |s| == 0 then "" else [UpcaseChar(s[0])] + CamelizeRest(s[1..])
  }

  /** Upper-cases the first character and leaves the rest as written. */
  function UpcaseFirst(w: string): (r: string)
    ensures |r| == |w|
    ensures |w| >= 1 ==> r[0] == UpcaseChar(w[0]) && r[1..] == w[1..]
  {
    if |w| == 0 then "" else [UpcaseChar(w[0])] + w[1..]
  }

  /** The words, each with its first character upper-cased, run together. */
  function UpcaseFirstAll(words: seq<string>): (r: string)
  {
    if |words| == 0 then "" else UpcaseFirst(words[0]) + UpcaseFirstAll(words[1..])
  }

  /** `classify` as far as this model goes: camelizing (no singularizing). */
  function Classify(s: string): (r: string) {
    Camelize(s)
  }

  /** Text without underscores passes through the camelizer unchanged. */
  lemma {:induction false} CamelizeRestPlain(w: string, tail: string)
    requires '_' !in w
    ensures CamelizeRest(w + tail) == w + CamelizeRest(tail)
    decreases |w|
  {
    if |w| > 0 {
      assert w[0] in w;
      var s := w + tail;
      assert s[0] == w[0] && s[0] != '_';
      assert CamelizeRest(s) == [w[0]] + CamelizeRest(s[1..]);
      assert s[1..] == w[1..] + tail;
      CamelizeRestPlain(w[1..], tail);
      assert [w[0]] + (w[1..] + CamelizeRest(tail)) == w + CamelizeRest(tail);
    } else {
      assert w + tail == tail;
    }
  }

  /** An underscore and a word: the word comes out with its first character upper-cased. */
  lemma CamelizeRestWord(w: string, tail: string)
    requires |w| >= 1 && '_' !in w
    ensures CamelizeRest("_" + (w + tail)) == UpcaseFirst(w) + CamelizeRest(tail)
  {
    var s := "_" + (w + tail);
    assert s[0] == '_' && s[1] == w[0] && |s| >= 2;
    assert s[2..] == w[1..] + tail;
    assert CamelizeRest(s) == [UpcaseChar(w[0])] + CamelizeRest(w[1..] + tail);
    assert '_' !in w[1..] by {
      forall k | 1 <= k < |w| ensures w[k] != '_' { assert w[k] in w; }
    }
    CamelizeRestPlain(w[1..], tail);
    assert UpcaseFirst(w) == [UpcaseChar(w[0])] + w[1..];
  }

  lemma {:induction false} CamelizeRestWords(words: seq<string>)
    requires |words| >= 1
    requires forall w :: w in words ==> |w| >= 1 && '_' !in w
    ensures CamelizeRest("_" + Join(words, '_')) == UpcaseFirstAll(words)
    decreases |words|
  {
    var w := words[0];
    assert w in words;
    var tail := if |words| == 1 then "" else "_" + Join(words[1..], '_');
    assert Join(words, '_') == w + tail;
    CamelizeRestWord(w, tail);
    if |words| == 1 {
      assert UpcaseFirstAll(words) == UpcaseFirst(w) + UpcaseFirstAll([]);
    } else {
      assert forall v :: v in words[1..] ==> v in words;
      CamelizeRestWords(words[1..]);
    }
  }

  /** Camelizing an underscore-separated list of words upper-cases the first
      character of each word and drops the underscores: `asset_public` gives
      `AssetPublic`. */
  lemma CamelizeWords(words: seq<string>)
    requires |words| >= 1
    requires forall w :: w in words ==> |w| >= 1 && '_' !in w
    ensures Camelize(Join(words, '_')) == UpcaseFirstAll(words)
  {
    CamelizeRestWords(words);
    var s := Join(words, '_');
    assert |words[0]| >= 1;
    assert |s| >= 1;
    assert ("_" + s)[2..] == s[1..];
  }

  /** A word followed by an underscore-separated list camelizes word by word. */
  lemma CamelizePrefixed(first: string, words: seq<string>)
    requires |first| >= 1 && '_' !in first
    requires |words| >= 1
    requires forall w :: w in words ==> |w| >= 1 && '_' !in w
    ensures Camelize(first + "_" + Join(words, '_')) == UpcaseFirst(first) + UpcaseFirstAll(words)
  {
    var all := [first] + words;
    assert all[0] == first && all[1..] == words;
    assert forall w :: w in all ==> w == first || w in words;
    assert Join(all, '_') == first + "_" + Join(words, '_');
    CamelizeWords(all);
  }
}
