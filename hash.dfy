/** `parseHash` of ui.js: the URL fragment `a=b&c=d` read into a parameter map. */
module Hash {
  import opened Text

  /** `ui.params`: each key maps to its value, or to `undefined` (None) when the piece had no '='. */
  type Params = map<string, Option<string>>

  /** `location.hash.slice(1)`: the fragment without its leading '#'. */
  function Fragment(hash: string): string {
    if hash == [] then [] else hash[1..]
  }

  /** `pair[0]` of `piece.split('=')`. */
  function KeyOf(piece: string): string {
    Split(piece, '=')[0]
  }

  /** `pair[1]` of `piece.split('=')`: undefined without a '=', the text up to a second '='
      otherwise. */
  function ValueOf(piece: string): Option<string> {
    var pair := Split(piece, '=');
    if |pair| > 1 then Some(pair[1]) else None
  }

  /** The value of the first piece whose key is `key`, if any piece has it. */
  function FirstValue(pieces: seq<string>, key: string): Option<Option<string>>
    decreases |pieces|
  {
    if pieces == [] then None
    else if KeyOf(pieces[0]) == key then Some(ValueOf(pieces[0]))
    else FirstValue(pieces[1..], key)
  }

  /** What `ui.params` holds for `key` after `parseHash`: nothing at all when the first piece of
      the fragment is empty, otherwise the value of the first piece with that key. */
  function Param(hash: string, key: string): Option<Option<string>> {
    var pieces := Split(Fragment(hash), '&');
    if pieces[0] == "" then None else FirstValue(pieces, key)
  }

  function Get(params: Params, key: string): Option<Option<string>> {
    if key in params then Some(params[key]) else None
  }

  /** A key is absent exactly when no piece carries it. */
  lemma {:induction false} FirstValueAbsent(pieces: seq<string>, key: string)
    ensures FirstValue(pieces, key) == None <==> forall i :: 0 <= i < |pieces| ==> KeyOf(pieces[i]) != key
    decreases |pieces|
  {
    if pieces != [] {
      FirstValueAbsent(pieces[1..], key);
      assert forall i :: 1 <= i < |pieces| ==> pieces[1..][i - 1] == pieces[i];
    }
  }

  /** The first occurrence of a key wins over every later one. */
  lemma {:induction false} FirstValueWins(pieces: seq<string>, key: string, k: nat)
    requires k < |pieces| && KeyOf(pieces[k]) == key
    requires forall j :: 0 <= j < k ==> KeyOf(pieces[j]) != key
    ensures FirstValue(pieces, key) == Some(ValueOf(pieces[k]))
    decreases k
  {
    if k > 0 {
      FirstValueWins(pieces[1..], key, k - 1);
    }
  }

  lemma PairExamples()
    ensures KeyOf("a=1") == "a" && ValueOf("a=1") == Some("1")
    ensures KeyOf("b=2") == "b" && ValueOf("b=2") == Some("2")
    ensures KeyOf("run") == "run" && ValueOf("run") == None
  {
    SplitAfter("a", '=', "1");
    SplitWhole("1", '=');
    assert "a" + ['='] + "1" == "a=1";
    SplitAfter("b", '=', "2");
    SplitWhole("2", '=');
    assert "b" + ['='] + "2" == "b=2";
    SplitWhole("run", '=');
  }

  /** The first of two pieces with the same key wins. */
  lemma ParamFirstWins()
    ensures Param("#a=1&a=3", "a") == Some(Some("1"))
  {
    PairExamples();
    var pieces := ["a=1", "a=3"];
    assert Fragment("#a=1&a=3") == "a=1" + ['&'] + "a=3";
    SplitWhole("a=3", '&');
    SplitAfter("a=1", '&', "a=3");
    FirstValueWins(pieces, "a", 0);
  }

  /** A piece without '=' records its key with an undefined value; an empty first piece records nothing. */
  lemma ParamEdgeCases()
    ensures Param("#run", "run") == Some(None)
    ensures Param("#&a=1", "a") == None
    ensures Param("", "a") == None
  {
    PairExamples();
    assert Fragment("#run") == "run";
    SplitWhole("run", '&');
    assert Fragment("#&a=1") == "" + ['&'] + "a=1";
    SplitAfter("", '&', "a=1");
  }
}
