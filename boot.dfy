/** The auto-run test of `onLoad` in ui.js: a page opened with a fragment beginning "run" starts
    all tests. */
module Boot {

  /** `s.slice(begin, end)` for `0 <= begin <= end`: the characters between the two positions,
      each clamped to the length of the string. */
  function Slice(s: string, begin: nat, end: nat): (r: string)
    requires begin <= end
    ensures |r| <= end - begin
  {
    if begin >= |s| then "" else s[begin .. if end < |s| then end else |s|]
  }

  /** The test as the code writes it: `'run' == location.hash.slice(1, 3)`. */
  predicate AutoRunAsWritten(hash: string) {
    Slice(hash, 1, 3) == "run"
  }

  /** `slice(1, 3)` has at most two characters, so the test never holds, not even for "#run". */
  lemma AutoRunAsWrittenNeverHolds(hash: string)
    ensures !AutoRunAsWritten(hash)
  {
    assert |Slice(hash, 1, 3)| <= 2;
  }

  lemma AutoRunAsWrittenMissesRun()
    ensures !AutoRunAsWritten("#run")
  {
    AutoRunAsWrittenNeverHolds("#run");
  }

  /** The intended test, `'run' == location.hash.slice(1, 4)`. */
  predicate AutoRun(hash: string) {
    Slice(hash, 1, 4) == "run"
  }

  /** The corrected test holds exactly when the fragment after '#' begins with "run". */
  lemma AutoRunSpec(hash: string)
    ensures AutoRun(hash) <==> |hash| >= 1 && "run" <= hash[1..]
  {
    if |hash| >= 4 {
      assert Slice(hash, 1, 4) == hash[1..4];
      assert "run" <= hash[1..] <==> hash[1..4] == "run";
    } else if |hash| >= 1 {
      assert |Slice(hash, 1, 4)| < 3;
      assert |hash[1..]| < 3;
    }
  }

  lemma AutoRunExamples()
    ensures AutoRun("#run") && AutoRun("#run&x=1") && !AutoRun("#ru") && !AutoRun("")
  {
    AutoRunSpec("#run");
    AutoRunSpec("#run&x=1");
    AutoRunSpec("#ru");
  }
}
