/** The two track classifiers: `normalize_track` for the free-text route label of
    a row and `infer_track_from_filename` for the file name. Both test three
    keywords in a fixed order and answer the first track whose keyword occurs. */
module Tracks {
  import opened Wrappers
  import opened Text

  /** The measurement routes. */
  datatype Track = Antigone | Boulevards | Ecusson

  /** The value stored in the `track_id` column. */
  function TrackName(t: Track): string {
    match t
    case Antigone => "antigone"
    case Boulevards => "boulevards"
    case Ecusson => "ecusson"
  }

  /** The word whose presence selects a track (the singular "boulevard" selects
      the plural track). */
  function Keyword(t: Track): string {
    match t
    case Antigone => "antigone"
    case Boulevards => "boulevard"
    case Ecusson => "ecusson"
  }

  /** The position of a track's test in the priority order. */
  function Rank(t: Track): nat {
    match t
    case Antigone => 0
    case Boulevards => 1
    case Ecusson => 2
  }

  /** `r` is the track of highest priority whose keyword occurs in `n`, and is
      missing exactly when no keyword occurs. */
  ghost predicate FirstKeyword(n: string, r: Option<Track>) {
    && (r.None? <==> forall t: Track :: !Contains(n, Keyword(t)))
    && forall t: Track :: r == Some(t) ==>
         Contains(n, Keyword(t)) && forall u: Track :: Rank(u) < Rank(t) ==> !Contains(n, Keyword(u))
  }

  /** The chain of tests "antigone", "boulevard", "ecusson" picks the first
      keyword present. */
  lemma PriorityChain(n: string, r: Option<Track>)
    requires r == if Contains(n, "antigone") then Some(Antigone)
                  else if Contains(n, "boulevard") then Some(Boulevards)
                  else if Contains(n, "ecusson") then Some(Ecusson)
                  else None
    ensures FirstKeyword(n, r)
  {
    forall t: Track
      ensures Contains(n, Keyword(t)) <==>
        if t == Antigone then Contains(n, "antigone")
        else if t == Boulevards then Contains(n, "boulevard")
        else Contains(n, "ecusson")
    {
      match t
      case Antigone =>
      case Boulevards =>
      case Ecusson =>
    }
    forall t: Track | r == Some(t)
      ensures Contains(n, Keyword(t)) && forall u: Track :: Rank(u) < Rank(t) ==> !Contains(n, Keyword(u))
    {
      forall u: Track | Rank(u) < Rank(t) ensures !Contains(n, Keyword(u)) {
        match u
        case Antigone =>
        case Boulevards =>
        case Ecusson =>
      }
    }
  }

  /** The priority rule picks at most one answer. */
  lemma FirstKeywordUnique(n: string, r: Option<Track>, r': Option<Track>)
    requires FirstKeyword(n, r) && FirstKeyword(n, r')
    ensures r == r'
  {
  }

  /** `infer_track_from_filename(name)`: lower-case, strip accents, and test
      "antigone", "boulevard", "ecusson" in that order. */
  function InferTrackFromFilename(name: string): Option<Track> {
    var n := StripAccents(Lower(name));
    if Contains(n, "antigone") then Some(Antigone)
    else if Contains(n, "boulevard") then Some(Boulevards)
    else if Contains(n, "ecusson") then Some(Ecusson)
    else None
  }

  /** The filename classifier answers the track of highest priority whose
      keyword occurs in the lower-cased, accent-free name, and nothing when none
      occurs. */
  lemma InferTrackPriority(name: string)
    ensures FirstKeyword(StripAccents(Lower(name)), InferTrackFromFilename(name))
  {
    PriorityChain(StripAccents(Lower(name)), InferTrackFromFilename(name));
  }


  /** The rewrite `replace("boulevard", "boulevards")` that `normalize_track`
      applies to the cleaned label. */
  function PluralizeBoulevard(s: string): string {
    ReplaceAll(s, "boulevard", "boulevards")
  }

  /** After stripping and the plural rewrite, each test of `normalize_track`
      answers what the corresponding keyword test answers on the label before
      stripping and rewriting. */
  lemma CleanedLabelTests(c: string)
    ensures Contains(PluralizeBoulevard(Strip(c)), "antigone") <==> Contains(c, "antigone")
    ensures Contains(PluralizeBoulevard(Strip(c)), "boulevards") <==> Contains(c, "boulevard")
    ensures Contains(PluralizeBoulevard(Strip(c)), "ecusson") <==> Contains(c, "ecusson")
  {
    var s := Strip(c);
    BoulevardFacts();
    StripKeepsWord(c, "boulevard");
    ReplaceFindsReplacement(s, "boulevard", "boulevards");
    AntigoneFacts();
    NoOverlapAntigone();
    NoOverlapAntigone'();
    StripKeepsWord(c, "antigone");
    ReplaceKeepsWord(s, "boulevard", "boulevards", "antigone");
    EcussonFacts();
    NoOverlapEcusson();
    NoOverlapEcusson'();
    StripKeepsWord(c, "ecusson");
    ReplaceKeepsWord(s, "boulevard", "boulevards", "ecusson");
  }

  /** The letter facts about the keywords that the rewrite lemmas need. */
  lemma BoulevardFacts()
    ensures NoSpace("boulevard") && Avoids("boulevard"[1..], 'b') && HasPrefix("boulevards", "boulevard")
  {
  }

  lemma AntigoneFacts()
    ensures NoSpace("antigone") && Avoids("antigone", 'b')
  {
  }

  lemma NoOverlapAntigone()
    ensures NoOverlap("boulevards", "antigone")
  {
  }

  lemma NoOverlapAntigone'()
    ensures NoOverlap("boulevard", "antigone")
  {
  }

  lemma EcussonFacts()
    ensures NoSpace("ecusson") && Avoids("ecusson", 'b')
  {
  }

  lemma NoOverlapEcusson()
    ensures NoOverlap("boulevards", "ecusson")
  {
  }

  lemma NoOverlapEcusson'()
    ensures NoOverlap("boulevard", "ecusson")
  {
  }

  /** `normalize_track(x)`: a missing label gives a missing track; otherwise the
      label is accent-stripped, lower-cased, stripped and rewritten from
      "boulevard" to "boulevards" before "antigone", "boulevards" and "ecusson"
      are tested in that order. */
  function NormalizeTrack(x: Option<string>): (r: Option<Track>)
    ensures x.None? ==> r.None?
    ensures x.Some? ==> FirstKeyword(Lower(StripAccents(x.value)), r)
  {
    if x.None? then None
    else
      var c := Lower(StripAccents(x.value));
      var y := PluralizeBoulevard(Strip(c));
      var r := if Contains(y, "antigone") then Some(Antigone)
               else if Contains(y, "boulevards") then Some(Boulevards)
               else if Contains(y, "ecusson") then Some(Ecusson)
               else None;
      CleanedLabelTests(c);
      PriorityChain(c, r);
      r
  }

  /** On a label that is already lower-case and free of accents, the label
      classifier and the filename classifier give the same track. */
  lemma ClassifiersAgree(s: string)
    requires Lower(s) == s && StripAccents(s) == s
    ensures NormalizeTrack(Some(s)) == InferTrackFromFilename(s)
  {
    InferTrackPriority(s);
    FirstKeywordUnique(s, NormalizeTrack(Some(s)), InferTrackFromFilename(s));
  }

  // ---------------------------------------------------------------------------
  // Worked labels
  // ---------------------------------------------------------------------------

  /** A label whose accent-free, lower-cased form is `n` gets the track that the
      chain of tests gives on `n`. */
  lemma NormalizedAs(x: string, n: string, t: Option<Track>)
    requires Lower(StripAccents(x)) == n
    requires t == if Contains(n, "antigone") then Some(Antigone)
                  else if Contains(n, "boulevard") then Some(Boulevards)
                  else if Contains(n, "ecusson") then Some(Ecusson)
                  else None
    ensures NormalizeTrack(Some(x)) == t
  {
    PriorityChain(n, t);
    FirstKeywordUnique(n, NormalizeTrack(Some(x)), t);
  }

  /** `strip_accents("é") == "e"`. */
  lemma AccentedE(e: string)
    requires e == "\U{E9}"
    ensures StripAccents(e) == "e"
  {
    assert Nfkd([]) == [] && RemoveCombining([]) == [];
    assert Decompose(e[0]) == ['e', Acute];
    assert Nfkd(e) == Decompose(e[0]) + Nfkd(e[1..]);
    assert Nfkd(e) == ['e', Acute];
    assert RemoveCombining([Acute]) == [];
    assert RemoveCombining(['e', Acute]) == ['e'] + RemoveCombining([Acute]);
  }

  /** Stripping the accents of a word with one accented letter in it. */
  lemma AccentInside(a: string, e: string, b: string)
    requires StripAccents(a) == a && StripAccents(b) == b
    ensures StripAccents(a + e + b) == a + StripAccents(e) + b
  {
    StripAccentsAppend(a + e, b);
    StripAccentsAppend(a, e);
  }

  /** The accent-free pieces of the Boulevard label. */
  lemma BoulevardPieces(a: string, b: string)
    requires a == "Boulevard de la R" && b == "volution"
    ensures StripAccents(a) == a && StripAccents(b) == b
  {
    StripAccentsAscii(a);
    StripAccentsAscii(b);
  }

  /** The Boulevard label is an accented letter between two accent-free pieces. */
  lemma BoulevardSplit(x: string, a: string, e: string, b: string)
    requires x == "Boulevard de la R\U{E9}volution"
    requires a == "Boulevard de la R" && e == "\U{E9}" && b == "volution"
    ensures x == a + e + b && a + "e" + b == "Boulevard de la Revolution"
  {
  }

  /** `normalize_track("Boulevard de la Révolution") == "boulevards"`. */
  lemma BoulevardLabel(x: string)
    requires x == "Boulevard de la R\U{E9}volution"
    ensures NormalizeTrack(Some(x)) == Some(Boulevards)
  {
    var a, e, b := "Boulevard de la R", "\U{E9}", "volution";
    BoulevardSplit(x, a, e, b);
    BoulevardPieces(a, b);
    AccentedE(e);
    AccentInside(a, e, b);
    BoulevardLower(a + "e" + b);
    BoulevardTests(Lower(a + "e" + b));
    NormalizedAs(x, Lower(a + "e" + b), Some(Boulevards));
  }

  /** Lower-casing and the keyword tests of the worked labels. */
  lemma BoulevardLower(x: string)
    requires x == "Boulevard de la Revolution"
    ensures Lower(x) == "boulevard de la revolution"
  {
  }

  lemma BoulevardTests(n: string)
    requires n == "boulevard de la revolution"
    ensures !Contains(n, "antigone") && Contains(n, "boulevard")
  {
    MissingLetter(n, "antigone", 4);
    OccursContains(n, "boulevard", 0);
  }

  lemma EcussonLower(x: string)
    requires x == "ECUSSON"
    ensures Lower(StripAccents(x)) == "ecusson"
  {
    StripAccentsAscii(x);
  }

  lemma EcussonTests(n: string)
    requires n == "ecusson"
    ensures !Contains(n, "antigone") && !Contains(n, "boulevard") && Contains(n, "ecusson")
  {
    MissingLetter(n, "antigone", 0);
    MissingLetter(n, "boulevard", 0);
    OccursContains(n, "ecusson", 0);
  }

  lemma UnknownLower(n: string)
    requires n == "unknown place"
    ensures Lower(StripAccents(n)) == n
  {
    StripAccentsAscii(n);
    LowerFixed(n);
  }

  lemma UnknownTests(n: string)
    requires n == "unknown place"
    ensures !Contains(n, "antigone") && !Contains(n, "boulevard")
  {
    MissingLetter(n, "antigone", 4);
    MissingLetter(n, "boulevard", 0);
  }

  lemma UnknownNotEcusson(n: string)
    requires n == "unknown place"
    ensures !Contains(n, "ecusson")
  {
    MissingLetter(n, "ecusson", 3);
  }

  /** A name holding "antigone" names the Antigone track, whatever surrounds it. */
  lemma AntigoneInName(p: string, q: string)
    ensures InferTrackFromFilename(p + "antigone" + q) == Some(Antigone)
  {
    var w := "antigone";
    LowerAppend(p + w, q);
    LowerAppend(p, w);
    LowerFixed(w);
    StripAccentsAscii(w);
    var lp, lq := Lower(p), Lower(q);
    StripAccentsAppend(lp + w, lq);
    StripAccentsAppend(lp, w);
    var n := StripAccents(lp) + w + StripAccents(lq);
    assert n[|StripAccents(lp)|..|StripAccents(lp)| + |w|] == w;
    OccursContains(n, w, |StripAccents(lp)|);
  }

  /** `normalize_track("ECUSSON") == "ecusson"`. */
  lemma EcussonLabel(x: string)
    requires x == "ECUSSON"
    ensures NormalizeTrack(Some(x)) == Some(Ecusson)
  {
    EcussonLower(x);
    EcussonTests(Lower(StripAccents(x)));
    NormalizedAs(x, Lower(StripAccents(x)), Some(Ecusson));
  }

  /** `normalize_track("unknown place")` is missing. */
  lemma UnknownLabel(x: string)
    requires x == "unknown place"
    ensures NormalizeTrack(Some(x)).None?
  {
    UnknownLower(x);
    UnknownTests(x);
    UnknownNotEcusson(x);
    NormalizedAs(x, x, None);
  }

  /** The conventional file name of an Antigone session names that track. */
  lemma ConventionalFilename(name: string)
    requires name == "picopatt_montpellier_antigone_20241107_1122.csv"
    ensures InferTrackFromFilename(name) == Some(Antigone)
  {
    var p, q := "picopatt_montpellier_", "_20241107_1122.csv";
    assert name == p + "antigone" + q;
    AntigoneInName(p, q);
  }
}
