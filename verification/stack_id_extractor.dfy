/** The stack-ID extractor of disco-up/stack-id-extractor.mjs, which turns a
    CloudFormation stack ARN into the key under which the resource map is
    stored, and the storage key of disco-up/index.mjs built from it. */
module StackIdExtractor {
  import opened Wrappers
  import opened Text

  /** The key used whenever the ARN cannot be parsed. */
  const Fallback: string := "resources"

  /** The three diagnostics the extractor may log. */
  datatype Warning = InvalidInput | MalformedArn | NotUuid

  /** The key, and the diagnostic logged while computing it, if any. */
  datatype Extraction = Extraction(key: string, warning: Option<Warning>)

  predicate IsHexDigit(c: char) {
    '0' <= c <= '9' || 'a' <= c <= 'f' || 'A' <= c <= 'F'
  }

  /** The case-insensitive UUID pattern: 8-4-4-4-12 hexadecimal digits. */
  predicate IsUuidShape(s: string) {
    |s| == 36
    && forall i :: 0 <= i < 36 ==>
         if i == 8 || i == 13 || i == 18 || i == 23 then s[i] == '-' else IsHexDigit(s[i])
  }

  /** `t` is what follows the last slash of `s`. */
  predicate IsFinalSegment(s: string, t: string) {
    EndsWith(s, t) && '/' !in t && |t| < |s| && s[|s| - |t| - 1] == '/'
  }

  /** extractStackId. `None` stands for null, undefined and any value that is
      not a string. Missing, empty and non-string input, and input with fewer
      than two slashes, give the fallback; otherwise the key is exactly the
      text after the last slash. The UUID check decides only whether a
      warning is logged, never the key. The key never holds a slash. */
  function ExtractStackId(stackIdArn: Option<string>): (r: Extraction)
    ensures stackIdArn.None? || stackIdArn.value == "" ==> r.key == Fallback
    ensures stackIdArn.Some? && Count(stackIdArn.value, '/') < 2 ==> r.key == Fallback
    ensures stackIdArn.Some? && Count(stackIdArn.value, '/') >= 2 ==> IsFinalSegment(stackIdArn.value, r.key)
    ensures '/' !in r.key
    ensures r.warning == Some(NotUuid)
        <==> stackIdArn.Some? && Count(stackIdArn.value, '/') >= 2 && !IsUuidShape(r.key)
  {
    if stackIdArn.None? || stackIdArn.value == "" then
      Extraction(Fallback, Some(InvalidInput))
    else
      var parts := Split(stackIdArn.value, '/');
      if |parts| < 3 then
        Extraction(Fallback, Some(MalformedArn))
      else
        var stackId := parts[|parts| - 1];
        JoinLast(parts, '/');
        Extraction(stackId, if IsUuidShape(stackId) then None else Some(NotUuid))
  }

  /** The blob-store key of the stored resource map (disco-up/index.mjs). */
  function StorageKey(stackId: string): (k: string)
    ensures EndsWith(k, "/resources.json")
  {
    stackId + "/resources.json"
  }

  /** A string has at most one final segment. */
  lemma FinalSegmentUnique(s: string, a: string, b: string)
    requires IsFinalSegment(s, a) && IsFinalSegment(s, b)
    ensures a == b
  {
  }

  /** A well-formed ARN's key is its final segment, whatever that segment
      looks like: a segment that fails the UUID check is still returned. */
  lemma KeyIsFinalSegment(s: string, t: string)
    requires Count(s, '/') >= 2 && IsFinalSegment(s, t)
    ensures ExtractStackId(Some(s)).key == t
    ensures !IsUuidShape(t) ==> ExtractStackId(Some(s)).warning == Some(NotUuid)
  {
    FinalSegmentUnique(s, ExtractStackId(Some(s)).key, t);
  }

  /** Deployment isolation: two well-formed ARNs get the same key, and the
      same storage key, exactly when their final segments agree; whatever
      comes before the last slash does not matter. */
  lemma DeploymentIsolation(s1: string, s2: string, t1: string, t2: string)
    requires Count(s1, '/') >= 2 && IsFinalSegment(s1, t1)
    requires Count(s2, '/') >= 2 && IsFinalSegment(s2, t2)
    ensures ExtractStackId(Some(s1)).key == ExtractStackId(Some(s2)).key <==> t1 == t2
    ensures StorageKey(ExtractStackId(Some(s1)).key) == StorageKey(ExtractStackId(Some(s2)).key) <==> t1 == t2
  {
    KeyIsFinalSegment(s1, t1);
    KeyIsFinalSegment(s2, t2);
    if StorageKey(t1) == StorageKey(t2) {
      StorageKeyInjective(t1, t2);
    }
  }

  /** Different keys are stored under different blob keys. */
  lemma StorageKeyInjective(a: string, b: string)
    requires StorageKey(a) == StorageKey(b)
    ensures a == b
  {
    assert |a| == |b|;
    assert a == StorageKey(a)[..|a|];
    assert b == StorageKey(b)[..|b|];
  }
}
