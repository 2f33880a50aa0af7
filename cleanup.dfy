/** The cleanup both handlers apply to the model's reply before parsing it
    (api/index.js:54, server/index.js:54): delete every "```json", then every
    "```", then trim. */
module Cleanup {
  import opened ReplaceAll
  import opened JsTrim

  /** A markdown code-fence marker. */
  const Fence: seq<char> := "```"
  /** A fence marker with the JSON language tag. */
  const JsonFence: seq<char> := "```json"

  /** `text.replace(/```json/g, '').replace(/```/g, '').trim()`. What it
      hands to the JSON parser contains no fence marker, with or without a
      language tag, and has no white space at either end. */
  function Clean(text: seq<char>): (r: seq<char>)
    ensures Absent(r, Fence)
    ensures Absent(r, JsonFence)
    ensures Trimmed(r)
  {
    var u := RemoveAll(RemoveAll(text, JsonFence), Fence);
    RemoveFencesLeavesNone(RemoveAll(text, JsonFence));
    var r := Trim(u);
    var a :| SliceAmidWhitespace(u, r, a);
    AbsentFromSlice(u, Fence, a, a + |r|);
    FenceFreeHasNoJsonFence(r);
    r
  }

  /** The first `k` characters of `s` are all backticks. */
  predicate BacktickRun(s: seq<char>, k: nat)
  {
    k <= |s| && forall i :: 0 <= i < k ==> s[i] == '`'
  }

  /** A run of backticks at the start of what survives fence removal was
      already a run of backticks at the start of the input. */
  lemma {:induction false} BacktickRunSurvives(t: seq<char>, k: nat)
    requires BacktickRun(RemoveAll(t, Fence), k)
    ensures BacktickRun(t, k)
    decreases |t|
  {
    var r := RemoveAll(t, Fence);
    if |t| < |Fence| {
    } else if t[..3] == Fence {
      BacktickRunSurvives(t[3..], k);
      assert forall i :: 0 <= i < 3 ==> t[i] == Fence[i];
      forall i | 0 <= i < k ensures t[i] == '`' {
        if i >= 3 { assert t[i] == t[3..][i - 3]; }
      }
    } else if k > 0 {
      assert r == [t[0]] + RemoveAll(t[1..], Fence);
      assert BacktickRun(RemoveAll(t[1..], Fence), k - 1) by {
        forall i | 0 <= i < k - 1 ensures RemoveAll(t[1..], Fence)[i] == '`' {
          assert r[i + 1] == RemoveAll(t[1..], Fence)[i];
        }
      }
      BacktickRunSurvives(t[1..], k - 1);
      forall i | 0 <= i < k ensures t[i] == '`' {
        if i == 0 { assert r[0] == t[0]; } else { assert t[i] == t[1..][i - 1]; }
      }
    }
  }

  /** Because the scan always removes the leftmost "```", removing fences
      never splices a new one together: the result contains no fence. */
  lemma {:induction false} RemoveFencesLeavesNone(s: seq<char>)
    ensures Absent(RemoveAll(s, Fence), Fence)
    decreases |s|
  {
    var r := RemoveAll(s, Fence);
    if |s| < |Fence| {
    } else if s[..3] == Fence {
      RemoveFencesLeavesNone(s[3..]);
    } else {
      var tail := RemoveAll(s[1..], Fence);
      RemoveFencesLeavesNone(s[1..]);
      assert r == [s[0]] + tail;
      forall k | 0 <= k <= |r| - 3 ensures !OccursAt(r, Fence, k) {
        if k == 0 {
          assert r[..3] == [r[0], r[1], r[2]];
          assert Fence == ['`', '`', '`'];
          if BacktickRun(tail, 2) {
            BacktickRunSurvives(s[1..], 2);
            assert s[1] == s[1..][0] && s[2] == s[1..][1];
            assert s[..3] == [s[0], s[1], s[2]];
            assert r[0] != '`';
          } else {
            assert r[1] == tail[0] && r[2] == tail[1];
          }
        } else {
          assert r[k..k + 3] == tail[k - 1..k - 1 + 3];
          assert !OccursAt(tail, Fence, k - 1);
        }
      }
    }
  }

  /** A slice of a string with no occurrence of `p` has none either. */
  lemma AbsentFromSlice(s: seq<char>, p: seq<char>, a: int, b: int)
    requires Absent(s, p) && 0 <= a <= b <= |s|
    ensures Absent(s[a..b], p)
  {
    forall k | 0 <= k <= (b - a) - |p| ensures !OccursAt(s[a..b], p, k) {
      var inSlice, inWhole := s[a..b][k..k + |p|], s[a + k..a + k + |p|];
      forall j | 0 <= j < |p| ensures inSlice[j] == inWhole[j] {
        assert inSlice[j] == s[a + k + j];
      }
      assert inSlice == inWhole;
      assert !OccursAt(s, p, a + k);
    }
  }

  /** "```json" starts with "```", so a fence-free string has neither. */
  lemma FenceFreeHasNoJsonFence(s: seq<char>)
    requires Absent(s, Fence)
    ensures Absent(s, JsonFence)
  {
    forall k | 0 <= k <= |s| - |JsonFence| ensures !OccursAt(s, JsonFence, k) {
      assert !OccursAt(s, Fence, k);
      assert s[k..k + 7][..3] == s[k..k + 3];
    }
  }

  /** Cleanup is idempotent: cleaning an already cleaned text changes nothing. */
  lemma CleanIdempotent(text: seq<char>)
    ensures Clean(Clean(text)) == Clean(text)
  {
    var c := Clean(text);
    RemoveAllAbsent(c, JsonFence);
    RemoveAllAbsent(c, Fence);
  }

  /** A pattern that starts with a fence is never found at a position of
      fence-free text that does not end in a backtick, so the scan passes
      such text through untouched, whatever follows it. */
  lemma {:induction false} RemoveAllPassesFenceFreeText(body: seq<char>, q: seq<char>, p: seq<char>)
    requires |p| >= 3 && p[..3] == Fence
    requires Absent(body, Fence) && (body == [] || body[|body| - 1] != '`')
    ensures RemoveAll(body + q, p) == body + RemoveAll(q, p)
    decreases |body|
  {
    if body == [] {
      assert body + q == q;
    } else {
      var s := body + q;
      if |s| < |p| {
        assert RemoveAll(q, p) == q;
      } else {
        assert s[..|p|][..3] == s[..3];
        if |body| >= 3 {
          assert !OccursAt(body, Fence, 0);
          assert s[..3] == body[..3];
        } else {
          assert s[|body| - 1] == body[|body| - 1];
        }
        assert s[..|p|] != p;
        assert s[1..] == body[1..] + q;
        AbsentFromSlice(body, Fence, 1, |body|);
        assert body[1..|body|] == body[1..];
        RemoveAllPassesFenceFreeText(body[1..], q, p);
        assert body == [body[0]] + body[1..];
      }
    }
  }

  /** A fence-free text keeps no fence when a line break is put on each side. */
  lemma FenceFreeBetweenLineBreaks(json: seq<char>)
    requires Absent(json, Fence)
    ensures Absent("\n" + json + "\n", Fence)
  {
    var body := "\n" + json + "\n";
    forall k | 0 <= k <= |body| - 3 ensures !OccursAt(body, Fence, k) {
      if k == 0 {
        assert body[..3][0] == '\n';
      } else if k + 3 == |body| {
        assert body[k..k + 3][2] == '\n';
      } else {
        assert body[k..k + 3] == json[k - 1..k + 2];
        assert !OccursAt(json, Fence, k - 1);
      }
    }
  }

  /** Trimming strips one white-space character off each end of a trimmed
      text and nothing more. */
  lemma TrimSurrounded(c: char, json: seq<char>, d: char)
    requires IsWhitespace(c) && IsWhitespace(d) && Trimmed(json)
    ensures Trim([c] + json + [d]) == json
  {
    var s := [c] + json + [d];
    assert s[1..] == json + [d];
    if json == [] {
      assert TrimStart([d]) == [];
    } else {
      assert TrimStart(json + [d]) == json + [d];
      assert (json + [d])[..|json|] == json;
      assert TrimEnd(json) == json;
    }
  }

  /** A reply that wraps a trimmed JSON text free of "```" in a fenced block
      tagged "json" cleans up to exactly that JSON text. Single backticks in
      the JSON (inline code in the generated copy) survive. */
  lemma CleanFencedReply(json: seq<char>)
    requires Trimmed(json) && Absent(json, Fence)
    ensures Clean("```json\n" + json + "\n```") == json
  {
    var body := "\n" + json + "\n";
    var s := "```json\n" + json + "\n```";
    FenceFreeBetweenLineBreaks(json);
    assert s == JsonFence + (body + Fence);
    assert s[..7] == JsonFence && s[7..] == body + Fence;
    RemoveAllPassesFenceFreeText(body, Fence, JsonFence);
    assert RemoveAll(s, JsonFence) == body + Fence;
    RemoveAllPassesFenceFreeText(body, Fence, Fence);
    assert Fence[3..] == [];
    assert RemoveAll(body + Fence, Fence) == body;
    TrimSurrounded('\n', json, '\n');
  }

  /** `s` has no backtick anywhere. */
  predicate NoBacktick(s: seq<char>)
  {
    forall i :: 0 <= i < |s| ==> s[i] != '`'
  }

  /** Text without a single backtick cannot contain a fence. */
  lemma NoBacktickNoFence(s: seq<char>)
    requires NoBacktick(s)
    ensures Absent(s, Fence)
  {
    forall k | 0 <= k <= |s| - 3 ensures !OccursAt(s, Fence, k) {
      assert s[k..k + 3][0] == s[k];
    }
  }

  /** A fenced one-item reply loses its fences and surrounding line breaks. */
  lemma CleanBracketExample()
    ensures Clean("```json\n[X]\n```") == "[X]"
  {
    var x := "[X]";
    assert !IsWhitespace('[') && !IsWhitespace(']');
    assert NoBacktick(x);
    NoBacktickNoFence(x);
    CleanFencedReply(x);
    assert "```json\n" + x + "\n```" == "```json\n[X]\n```";
  }

  /** A fenced reply holding one `{title, content}` object cleans up to the
      bare JSON array. */
  lemma CleanHookExample()
    ensures Clean("```json\n[{\"title\":\"Hook\",\"content\":\"Hi\"}]\n```")
            == "[{\"title\":\"Hook\",\"content\":\"Hi\"}]"
  {
    var hook := "[{\"title\":\"Hook\",\"content\":\"Hi\"}]";
    HookIsPlainTrimmedJson(hook);
    NoBacktickNoFence(hook);
    CleanFencedReply(hook);
    HookWrapped(hook);
  }

  /** The Hook array has no backtick and no white space at its ends. The
      array is a parameter fixed by `requires`, which keeps the long literal
      out of the proof obligations of `CleanHookExample`. */
  lemma HookIsPlainTrimmedJson(hook: seq<char>)
    requires hook == "[{\"title\":\"Hook\",\"content\":\"Hi\"}]"
    ensures Trimmed(hook) && NoBacktick(hook)
  {
    assert !IsWhitespace('[') && !IsWhitespace(']');
  }

  /** Wrapping the Hook array in a json fence gives the literal reply of
      `CleanHookExample`; the array is a parameter for the same reason. */
  lemma HookWrapped(hook: seq<char>)
    requires hook == "[{\"title\":\"Hook\",\"content\":\"Hi\"}]"
    ensures "```json\n" + hook + "\n```" == "```json\n[{\"title\":\"Hook\",\"content\":\"Hi\"}]\n```"
  {
    var wrapped := "```json\n" + hook + "\n```";
    var literal := "```json\n[{\"title\":\"Hook\",\"content\":\"Hi\"}]\n```";
    assert |wrapped| == |literal|;
    forall i | 0 <= i < |wrapped| ensures wrapped[i] == literal[i] { }
  }
}
