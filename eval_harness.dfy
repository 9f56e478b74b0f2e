/**
 * The offline structural checks of the evaluation harness (eval_harness.py):
 * a fixed length limit of 15000 characters and a fixed list of banned
 * phrases, searched for in the lower-cased prompt text.
 */
module EvalHarness {
  import opened Text
  import opened Checklist

  const MaxLength: nat := 15000

  const Banned: seq<string> := ["we will try", "maybe", "sort of"]

  datatype Issue = TooLong | BannedPhrase(phrase: string)

  /** The issue strings of `run_structural_checks`. */
  function Message(e: Issue): string {
    match e
    case TooLong => "Prompt too long (>15k chars)."
    case BannedPhrase(b) => "Banned phrase found: " + b
  }

  /** Each issue kind has its own message, and distinct phrases have distinct messages. */
  lemma MessageInjective(e: Issue, f: Issue)
    requires Message(e) == Message(f)
    ensures e == f
  {
    var prefix := "Banned phrase found: ";
    assert Message(TooLong)[0] == 'P';
    assert forall b :: Message(BannedPhrase(b))[0] == 'B';
    if e.BannedPhrase? && f.BannedPhrase? {
      assert e.phrase == Message(e)[|prefix|..] && f.phrase == Message(f)[|prefix|..];
    }
  }

  /** The issues found in a prompt text: the length issue first, then the phrases in list order. */
  function Issues(text: string): seq<Issue> {
    (if |text| > MaxLength then [TooLong] else [])
    + seq(|FoundPhrases(Lower(text), Banned)|, k requires 0 <= k < |FoundPhrases(Lower(text), Banned)| =>
          BannedPhrase(FoundPhrases(Lower(text), Banned)[k]))
  }

  /** `run_structural_checks`: the text length and the issues, appended in a loop. */
  method RunStructuralChecks(text: string) returns (length: nat, issues: seq<Issue>)
    ensures length == |text| && issues == Issues(text)
  {
    issues := [];
    if |text| > MaxLength {
      issues := issues + [TooLong];
    }
    var n := |issues|;
    var lowered := Lower(text);
    for k := 0 to |Banned|
      invariant |issues| >= n && issues[..n] == (if |text| > MaxLength then [TooLong] else [])
      invariant |issues| - n == |FoundPhrases(lowered, Banned[..k])|
      invariant forall j :: n <= j < |issues| ==> issues[j] == BannedPhrase(FoundPhrases(lowered, Banned[..k])[j - n])
    {
      assert Banned[..k + 1][..k] == Banned[..k];
      var b := Banned[k];
      if Contains(lowered, b) {
        issues := issues + [BannedPhrase(b)];
      }
    }
    assert Banned[..|Banned|] == Banned;
    length := |text|;
  }

  /**
   * The length issue is raised exactly when the text is over 15000 characters,
   * a phrase issue exactly for a banned phrase in the lower-cased text, and the
   * list is empty exactly when neither happens.
   */
  lemma IssuesIff(text: string)
    ensures TooLong in Issues(text) <==> |text| > MaxLength
    ensures forall b :: BannedPhrase(b) in Issues(text) <==> b in Banned && Contains(Lower(text), b)
    ensures Issues(text) == [] <==> |text| <= MaxLength && forall b :: b in Banned ==> !Contains(Lower(text), b)
  {
    var found := FoundPhrases(Lower(text), Banned);
    var issues := Issues(text);
    var head := if |text| > MaxLength then [TooLong] else [];
    assert issues == head + issues[|head|..];
    forall b ensures BannedPhrase(b) in issues <==> b in found {
      if b in found {
        var k :| 0 <= k < |found| && found[k] == b;
        assert issues[|head| + k] == BannedPhrase(b);
      }
    }
    forall b ensures b in found <==> b in Banned && Contains(Lower(text), b) {
      FoundPhrasesMembers(Lower(text), Banned, b);
    }
    if |found| > 0 {
      assert BannedPhrase(found[0]) in issues;
    }
  }
}
