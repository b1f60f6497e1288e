/** The scenarios exercised against GamespyProtocol::ValueForKey, proved for
    the model: the challenge lookup of the unit test, an absent key, and a
    value truncated to the destination's capacity. */
module GamespyScenarios {
  import opened GamespyProtocol

  /** The query string of the unit test. */
  const Sample: seq<char> := "\\lc\\1\\challenge\\DFDMXJLXJL\\id\\1\\final\\"

  const ChallengeKey: seq<char> := "\\challenge\\"

  const AbsentKey: seq<char> := "\\notakey\\"

  /** The challenge key's value in the sample is DFDMXJLXJL. */
  lemma ChallengeValue()
    ensures LookUp(Sample, ChallengeKey) == Some("DFDMXJLXJL")
  {
    forall i | 0 <= i < 11 ensures Sample[5..16][i] == ChallengeKey[i] {
      assert Sample[5..16][i] == Sample[5 + i];
    }
    forall i | 0 <= i < 10 ensures Sample[16..26][i] == "DFDMXJLXJL"[i] {
      assert Sample[16..26][i] == Sample[16 + i];
    }
    forall q: nat | q < 5 ensures !MatchAt(Sample, ChallengeKey, q) {
      assert Sample[q..q + 11][0] == Sample[q] && Sample[q..q + 11][1] == Sample[q + 1];
      assert Sample[q] != ChallengeKey[0] || Sample[q + 1] != ChallengeKey[1] by {
        assert q == 0 || q == 1 || q == 2 || q == 3 || q == 4;
      }
    }
    LookUpSpec(Sample, ChallengeKey, 5, "DFDMXJLXJL");
  }

  /** The absent key occurs nowhere in the sample: it holds a 'k' and the
      sample does not. */
  lemma AbsentKeyMissing()
    ensures !Occurs(Sample, AbsentKey)
  {
    forall q: nat | q + 9 <= |Sample| ensures !MatchAt(Sample, AbsentKey, q) {
      assert Sample[q..q + 9][5] == Sample[q + 5];
      assert Sample[q + 5] != 'k';
    }
  }

  /** Extracting the challenge into a 128-character buffer succeeds and the
      buffer then reads as DFDMXJLXJL. */
  method ChallengeScenario() returns (ok: int, text: seq<char>)
    ensures ok == 1 && text == "DFDMXJLXJL"
  {
    var buf := new char[128];
    ok := ValueForKey(Sample, ChallengeKey, buf, 128);
    ChallengeValue();
    text := CStr(buf[..]);
  }

  /** Looking up an absent key reports 0 and leaves the buffer as it was,
      whatever the capacity passed, 0 included. */
  method AbsentKeyScenario() returns (ok: int, okNoRoom: int, untouched: bool)
    ensures ok == 0 && okNoRoom == 0 && untouched
  {
    var buf := new char[128](_ => 'x');
    var before := buf[..];
    AbsentKeyMissing();
    ok := ValueForKey(Sample, AbsentKey, buf, 128);
    okNoRoom := ValueForKey(Sample, AbsentKey, buf, 0);
    untouched := buf[..] == before;
  }

  /** With a capacity of 3, the value 1 fits and the value 123 is cut to 12. */
  method TruncationScenario() returns (fits: seq<char>, cut: seq<char>)
    ensures fits == "1" && cut == "12"
  {
    var buf := new char[3];
    var ok := ValueForKey("\\a\\1\\", "\\a\\", buf, 3);
    assert LookUp("\\a\\1\\", "\\a\\") == Some("1") by {
      assert "\\a\\1\\"[0..3] == "\\a\\";
      LookUpSpec("\\a\\1\\", "\\a\\", 0, "1");
    }
    fits := CStr(buf[..]);
    ok := ValueForKey("\\a\\123\\", "\\a\\", buf, 3);
    assert LookUp("\\a\\123\\", "\\a\\") == Some("123") by {
      assert "\\a\\123\\"[0..3] == "\\a\\";
      assert "\\a\\123\\"[3..6] == "123";
      LookUpSpec("\\a\\123\\", "\\a\\", 0, "123");
    }
    cut := CStr(buf[..]);
  }
}
