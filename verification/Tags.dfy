/** Tag validation (src/core/utils.cpp). */
module Tags {
  import opened Text
  import opened Wrappers

  const MAX_TAGS := 20

  const MAX_TAG_LENGTH := 32

  predicate IsTag(tag: string) {
    && 0 < |tag| <= MAX_TAG_LENGTH
    && forall i :: 0 <= i < |tag| ==> IsAlnum(tag[i]) || tag[i] == ':' || tag[i] == '-' || tag[i] == '_'
  }

  function TrimAll(tags: seq<string>): (r: seq<string>)
    ensures |r| == |tags| && forall i :: 0 <= i < |tags| ==> r[i] == Trim(tags[i])
  {
    seq(|tags|, i requires 0 <= i < |tags| => Trim(tags[i]))
  }

  /** Keeps the first occurrence of each element, in order. */
  function Distinct(s: seq<string>): seq<string> {
    if s == [] then [] else
      var n := |s| - 1;
      if s[n] in s[..n] then Distinct(s[..n]) else Distinct(s[..n]) + [s[n]]
  }

  predicate Acceptable(tags: seq<string>) {
    |tags| <= MAX_TAGS && forall i :: 0 <= i < |tags| ==> IsTag(Trim(tags[i]))
  }

  function Validated(tags: seq<string>): Option<seq<string>> {
    if Acceptable(tags) then Some(Distinct(TrimAll(tags))) else None
  }

  /** The checks on one trimmed tag. */
  method CheckTag(tag: string) returns (ok: bool)
    ensures ok == IsTag(tag)
  {
    if tag == "" || |tag| > MAX_TAG_LENGTH {
      return false;
    }
    for c := 0 to |tag|
      invariant forall i :: 0 <= i < c ==> IsAlnum(tag[i]) || tag[i] == ':' || tag[i] == '-' || tag[i] == '_'
    {
      if !IsAlnum(tag[c]) && tag[c] != ':' && tag[c] != '-' && tag[c] != '_' {
        return false;
      }
    }
    return true;
  }

  lemma TrimNext(tags: seq<string>, k: nat)
    requires k < |tags|
    ensures TrimAll(tags[..k + 1]) == TrimAll(tags[..k]) + [Trim(tags[k])]
    ensures TrimAll(tags[..k + 1])[..k] == TrimAll(tags[..k])
  {
  }

  /** The source's loops; `None` is the `false` return, which leaves the caller's list alone. */
  method ValidateTags(tags: seq<string>) returns (result: Option<seq<string>>)
    ensures result == Validated(tags)
  {
    if |tags| > MAX_TAGS {
      return None;
    }
    var normalized: seq<string> := [];
    var seen: set<string> := {};
    for k := 0 to |tags|
      invariant forall i :: 0 <= i < k ==> IsTag(Trim(tags[i]))
      invariant normalized == Distinct(TrimAll(tags[..k]))
      invariant forall t :: t in seen <==> t in TrimAll(tags[..k])
    {
      var tag := Trim(tags[k]);
      var ok := CheckTag(tag);
      if !ok {
        return None;
      }
      TrimNext(tags, k);
      if tag !in seen {
        seen := seen + {tag};
        normalized := normalized + [tag];
      }
    }
    assert tags[..|tags|] == tags;
    return Some(normalized);
  }

  ghost predicate NoRepeats(s: seq<string>) {
    forall i, j :: 0 <= i < j < |s| ==> s[i] != s[j]
  }

  /** Same elements, no repeats, never longer. */
  lemma {:induction false} DistinctResult(s: seq<string>)
    ensures NoRepeats(Distinct(s)) && |Distinct(s)| <= |s|
    ensures forall t :: t in Distinct(s) <==> t in s
  {
    if s != [] {
      var n := |s| - 1;
      DistinctResult(s[..n]);
      assert s == s[..n] + [s[n]];
    }
  }

  lemma {:induction false} DistinctOfDistinct(s: seq<string>)
    requires NoRepeats(s)
    ensures Distinct(s) == s
  {
    if s != [] {
      var n := |s| - 1;
      DistinctOfDistinct(s[..n]);
      assert s == s[..n] + [s[n]];
    }
  }

  /** Elements come in the order of their first occurrences. */
  lemma {:induction false} DistinctKeepsOrder(s: seq<string>, i: nat, j: nat)
    requires i < j < |s| && s[i] !in s[..i] && s[j] !in s[..j] && s[i] != s[j]
    ensures exists a, b :: 0 <= a < b < |Distinct(s)| && Distinct(s)[a] == s[i] && Distinct(s)[b] == s[j]
  {
    var n := |s| - 1;
    DistinctResult(s[..n]);
    if j == n {
      assert s[i] in s[..n];
      assert s[i] in Distinct(s[..n]);
      var a :| 0 <= a < |Distinct(s[..n])| && Distinct(s[..n])[a] == s[i];
      assert Distinct(s)[a] == s[i] && Distinct(s)[|Distinct(s)| - 1] == s[j];
    } else {
      assert s[..n][..i] == s[..i] && s[..n][..j] == s[..j];
      DistinctKeepsOrder(s[..n], i, j);
      var a, b :| 0 <= a < b < |Distinct(s[..n])| && Distinct(s[..n])[a] == s[i] && Distinct(s[..n])[b] == s[j];
      assert Distinct(s)[a] == s[i] && Distinct(s)[b] == s[j];
    }
  }

  lemma TagIsTrimmed(tag: string)
    requires IsTag(tag)
    ensures Trim(tag) == tag
  {
    TrimResult(tag);
  }

  /** Validating what was validated changes nothing and never fails, so doing it twice is doing it once. */
  lemma ValidatedTwice(tags: seq<string>)
    requires Validated(tags).Some?
    ensures Validated(Validated(tags).value) == Validated(tags)
  {
    var trimmed := TrimAll(tags);
    var once := Distinct(trimmed);
    DistinctResult(trimmed);
    forall i | 0 <= i < |once|
      ensures IsTag(once[i]) && Trim(once[i]) == once[i]
    {
      assert once[i] in trimmed;
      TagIsTrimmed(once[i]);
    }
    assert TrimAll(once) == once;
    DistinctOfDistinct(once);
  }
}
