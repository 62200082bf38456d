/** The object detector's output and the suspicious-object filter of
    `analyzeFrame`: a detection is suspicious when its lower-cased class
    contains one of the lower-cased words of `suspiciousObjects`. */
module Labels {
  import opened Text

  /** One object the detector reports: its class name and its floating-point
      confidence, which is only carried along. */
  datatype Detection = Detection(objectClass: string, score: real)

  const SuspiciousObjects: seq<string> := ["cell phone", "book", "laptop", "person"]

  /** `suspiciousObjects.some(s => cls.toLowerCase().includes(s.toLowerCase()))` */
  predicate IsSuspicious(objectClass: string) {
    exists i :: 0 <= i < |SuspiciousObjects| && MatchesWord(objectClass, SuspiciousObjects[i])
  }

  /** `cls.toLowerCase().includes(word.toLowerCase())` */
  predicate MatchesWord(objectClass: string, word: string) {
    Includes(ToLower(objectClass), ToLower(word))
  }

  /** `detectedObjects.filter(...)`: the suspicious detections, in the
      detector's order. */
  function SuspiciousDetections(ds: seq<Detection>): (r: seq<Detection>)
    ensures |r| <= |ds|
    ensures forall i :: 0 <= i < |r| ==> IsSuspicious(r[i].objectClass)
    ensures forall d :: d in r <==> d in ds && IsSuspicious(d.objectClass)
  {
    if ds == [] then []
    else (if IsSuspicious(ds[0].objectClass) then [ds[0]] else []) + SuspiciousDetections(ds[1..])
  }

  /** The filter works detection by detection: on a concatenation it is the
      concatenation of the filtered parts, so it keeps order and multiplicity. */
  lemma {:induction false} SuspiciousDetectionsConcat(a: seq<Detection>, b: seq<Detection>)
    ensures SuspiciousDetections(a + b) == SuspiciousDetections(a) + SuspiciousDetections(b)
  {
    if a == [] {
      assert a + b == b;
    } else {
      assert (a + b)[1..] == a[1..] + b;
      SuspiciousDetectionsConcat(a[1..], b);
    }
  }

  /** Lower-casing a second time changes nothing. */
  lemma ToLowerIdempotent(s: string)
    ensures ToLower(ToLower(s)) == ToLower(s)
  {
  }

  /** Matching ignores the case of the detector's class name. */
  lemma SuspiciousIgnoresCase(objectClass: string)
    ensures IsSuspicious(ToLower(objectClass)) <==> IsSuspicious(objectClass)
  {
    ToLowerIdempotent(objectClass);
  }

  /** The four words are already in lower case. */
  lemma WordsLowercase(i: nat)
    requires i < |SuspiciousObjects|
    ensures ToLower(SuspiciousObjects[i]) == SuspiciousObjects[i]
  {
    LowerFixed(SuspiciousObjects[i]);
  }

  /** A string without upper-case letters is its own lower-case form. */
  lemma LowerFixed(w: string)
    requires forall k :: 0 <= k < |w| ==> !('A' <= w[k] <= 'Z')
    ensures ToLower(w) == w
  {
    assert ToLower(w) == w;
  }

  /** A class is suspicious exactly when one of the four words occurs at some
      position of its lower-cased form ("book" matches "notebook"). */
  lemma SuspiciousIff(objectClass: string)
    ensures IsSuspicious(objectClass) ==>
      exists i: nat, j: nat :: i < |SuspiciousObjects| && OccursAt(ToLower(objectClass), SuspiciousObjects[i], j)
    ensures (exists i: nat, j: nat :: i < |SuspiciousObjects| && OccursAt(ToLower(objectClass), SuspiciousObjects[i], j))
      ==> IsSuspicious(objectClass)
  {
    var low := ToLower(objectClass);
    if IsSuspicious(objectClass) {
      var i :| 0 <= i < |SuspiciousObjects| && MatchesWord(objectClass, SuspiciousObjects[i]);
      WordsLowercase(i);
      MatchesWordIff(objectClass, SuspiciousObjects[i]);
      var j: nat :| OccursAt(low, SuspiciousObjects[i], j);
    }
    if exists i: nat, j: nat :: i < |SuspiciousObjects| && OccursAt(low, SuspiciousObjects[i], j) {
      var i: nat, j: nat :| i < |SuspiciousObjects| && OccursAt(low, SuspiciousObjects[i], j);
      WordsLowercase(i);
      MatchesWordIff(objectClass, SuspiciousObjects[i]);
    }
  }

  lemma {:induction false} MatchesWordIff(objectClass: string, word: string)
    requires ToLower(word) == word
    ensures MatchesWord(objectClass, word) ==> exists j: nat :: OccursAt(ToLower(objectClass), word, j)
    ensures (exists j: nat :: OccursAt(ToLower(objectClass), word, j)) ==> MatchesWord(objectClass, word)
  {
    IncludesIff(ToLower(objectClass), word);
  }

  /** Each of the four words, in any letter case, is itself suspicious; in
      particular the detector's "person" class, which it also reports for the
      candidate, is flagged. */
  lemma ListedWordsSuspicious(i: nat)
    requires i < |SuspiciousObjects|
    ensures IsSuspicious(SuspiciousObjects[i])
  {
    var w := SuspiciousObjects[i];
    WordsLowercase(i);
    IncludesIff(w, w);
    assert OccursAt(w, w, 0);
  }

  /** Classes the detector reports that contain none of the words pass. */
  lemma UnlistedClassPasses()
    ensures !IsSuspicious("cup")
  {
    assert ToLower("cup") == "cup";
  }
}
