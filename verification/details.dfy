/**
 * `details_list_to_dict`: the loan-feature, home-feature and financial
 * sections of a listing are lists of text groups; each non-empty group
 * becomes one dict entry keyed by its first text.
 */
module Details {
  import opened Wrappers
  import opened Dicts

  /** A value of the resulting dict: Python `None`, one `str`, or a `list` of `str`. */
  datatype DetailValue = NoValue | Text(text: string) | Texts(texts: seq<string>)

  /** The entry one group contributes; an empty group contributes none. */
  function GroupEntry(group: seq<string>): (entry: Option<(string, DetailValue)>)
    ensures entry.Some? <==> |group| > 0
    ensures entry.Some? ==> entry.value.0 == group[0] && (entry.value.1 == NoValue <==> |group| == 1)
  {
    if |group| == 0 then None
    else if |group| == 1 then Some((group[0], NoValue))
    else if |group| == 2 then Some((group[0], Text(group[1])))
    else Some((group[0], Texts(group[1..])))
  }

  function GroupEntries(details: seq<seq<string>>): (es: seq<Option<(string, DetailValue)>>)
    ensures |es| == |details|
  {
    seq(|details|, i requires 0 <= i < |details| => GroupEntry(details[i]))
  }

  /** The dict `details_list_to_dict(details)` returns. */
  function DetailsOf(details: seq<seq<string>>): map<string, DetailValue> {
    Build(GroupEntries(details))
  }

  /** `details_list_to_dict`. */
  method DetailsListToDict(details: seq<seq<string>>) returns (result: map<string, DetailValue>)
    ensures result == DetailsOf(details)
  {
    result := map[];
    for n := 0 to |details|
      invariant result == DetailsOf(details[..n])
    {
      var detail := details[n];
      DetailsOfSnoc(details, n);
      if |detail| > 1 {
        result := result[detail[0] := if |detail| == 2 then Text(detail[1]) else Texts(detail[1..])];
      } else if |detail| > 0 {
        result := result[detail[0] := NoValue];
      }
    }
    assert details[..|details|] == details;
  }

  /** Converting one more group performs that group's assignment. */
  lemma DetailsOfSnoc(details: seq<seq<string>>, n: nat)
    requires n < |details|
    ensures DetailsOf(details[..n + 1]) == Put(DetailsOf(details[..n]), GroupEntry(details[n]))
  {
    assert GroupEntries(details[..n + 1]) == GroupEntries(details[..n]) + [GroupEntry(details[n])];
    BuildSnoc(GroupEntries(details[..n]), GroupEntry(details[n]));
  }

  /** The keys are exactly the first texts of the non-empty groups; empty groups are skipped. */
  lemma DetailsKeys(details: seq<seq<string>>, key: string)
    ensures key in DetailsOf(details) <==>
      exists i :: 0 <= i < |details| && |details[i]| > 0 && details[i][0] == key
  {
    var es := GroupEntries(details);
    BuildKeys(es, key);
    assert forall i :: 0 <= i < |details| ==> es[i] == GroupEntry(details[i]);
  }

  /**
   * The last non-empty group with a given first text decides that key's
   * value: `None` for a one-text group, the second text for a two-text
   * group, the list of all texts after the first for a longer group.
   */
  lemma DetailsLastWins(details: seq<seq<string>>, i: nat)
    requires i < |details| && |details[i]| > 0
    requires forall j :: i < j < |details| ==> details[j] == [] || details[j][0] != details[i][0]
    ensures details[i][0] in DetailsOf(details)
    ensures |details[i]| == 1 ==> DetailsOf(details)[details[i][0]] == NoValue
    ensures |details[i]| == 2 ==> DetailsOf(details)[details[i][0]] == Text(details[i][1])
    ensures |details[i]| > 2 ==> DetailsOf(details)[details[i][0]] == Texts(details[i][1..])
  {
    var es := GroupEntries(details);
    assert forall j :: 0 <= j < |details| ==> es[j] == GroupEntry(details[j]);
    BuildLastWins(es, i);
  }

  /** The three group shapes, one of each, as a loan-feature section lists them. */
  lemma DetailsExamples()
    ensures DetailsOf([["Loan Type", "Fixed"], ["Rate"], ["Total", "A", "B"], []])
      == map["Loan Type" := Text("Fixed"), "Rate" := NoValue, "Total" := Texts(["A", "B"])]
  {
    var details: seq<seq<string>> := [["Loan Type", "Fixed"], ["Rate"], ["Total", "A", "B"], []];
    assert ["Total", "A", "B"][1..] == ["A", "B"];
    var e0, e1 := Some(("Loan Type", Text("Fixed"))), Some(("Rate", NoValue));
    var e2, e3 := Some(("Total", Texts(["A", "B"]))), None;
    assert GroupEntries(details) == [e0, e1, e2, e3];
    BuildSnoc([], e0);
    BuildSnoc([e0], e1);
    BuildSnoc([e0, e1], e2);
    BuildSnoc([e0, e1, e2], e3);
    assert [e0] == [] + [e0];
    assert [e0, e1] == [e0] + [e1];
    assert [e0, e1, e2] == [e0, e1] + [e2];
    assert [e0, e1, e2, e3] == [e0, e1, e2] + [e3];
    assert Build([e0, e1, e2, e3]) == map[]["Loan Type" := Text("Fixed")]["Rate" := NoValue]["Total" := Texts(["A", "B"])];
  }
}
