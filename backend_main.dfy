/** The chat backend's routing (`backend/main.py`): the ordered keyword intent
    classifier, the protocol lookup behind EMS answers, the dataset paging
    endpoint, the two query parsers of the compute handler, and the guard in
    front of every chat message. The pandas aggregates themselves are inputs
    or left out. */
module BackendMain {
  import opened Base
  import opened PyText

  // ------------------------------------------------------------ intents

  datatype Intent = Greeting | Operational | Ems | Reason | Compute | Chat

  const Greetings: set<string> := {"hi", "hello", "hey", "bye", "thanks"}

  const OperationalKeywords: seq<string> := [
    "delay", "delayed", "response time", "critical", "window", "peak", "when", "hour"
  ]

  const EmsKeywords: seq<string> := [
    "protocol", "ems", "triage", "cardiac", "trauma", "patient", "symptom",
    "age", "breathing", "breathe", "not breathing", "stop breathing", "allergic",
    "chest pain", "seizure", "burn", "wound", "injury", "drowning", "shock",
    "collapse", "unresponsive", "unconscious", "coma", "stroke", "sepsis",
    "respiratory", "asthma", "copd", "pneumonia", "infarction"
  ]

  const ReasonKeywords: seq<string> := ["why", "explain", "trend"]

  const ComputeKeywords: seq<string> := [
    "most", "least", "highest", "lowest", "count", "how many", "top", "average", "risk"
  ]

  /** `detect_intent`: an exact greeting word, then the first keyword group
      (operational, EMS, reason, compute) with a keyword inside the lowercased
      message, else plain chat. */
  function DetectIntent(msg: string): (r: Intent)
    ensures r == Greeting <==> Lower(msg) in Greetings
    ensures r == Operational <==>
              Lower(msg) !in Greetings && ContainsAny(Lower(msg), OperationalKeywords)
    ensures r == Ems <==>
              Lower(msg) !in Greetings && !ContainsAny(Lower(msg), OperationalKeywords)
              && ContainsAny(Lower(msg), EmsKeywords)
    ensures r == Reason <==>
              Lower(msg) !in Greetings && !ContainsAny(Lower(msg), OperationalKeywords)
              && !ContainsAny(Lower(msg), EmsKeywords) && ContainsAny(Lower(msg), ReasonKeywords)
    ensures r == Compute <==>
              Lower(msg) !in Greetings && !ContainsAny(Lower(msg), OperationalKeywords)
              && !ContainsAny(Lower(msg), EmsKeywords) && !ContainsAny(Lower(msg), ReasonKeywords)
              && ContainsAny(Lower(msg), ComputeKeywords)
    ensures r == Chat <==>
              Lower(msg) !in Greetings && !ContainsAny(Lower(msg), OperationalKeywords)
              && !ContainsAny(Lower(msg), EmsKeywords) && !ContainsAny(Lower(msg), ReasonKeywords)
              && !ContainsAny(Lower(msg), ComputeKeywords)
  {
    var s := Lower(msg);
    if s in Greetings then Greeting
    else if ContainsAny(s, OperationalKeywords) then Operational
    else if ContainsAny(s, EmsKeywords) then Ems
    else if ContainsAny(s, ReasonKeywords) then Reason
    else if ContainsAny(s, ComputeKeywords) then Compute
    else Chat
  }

  /** The classifier ignores letter case. */
  lemma {:induction false} DetectIntentCaseBlind(msg: string)
    ensures DetectIntent(Lower(msg)) == DetectIntent(msg)
  {
    LowerIdempotent(msg);
  }

  /** A message mentioning an hour is operational, whatever clinical words
      it also holds: no greeting word has a 'u', so it is not a greeting, and
      the operational test comes before the EMS one. */
  lemma {:induction false} HourIsOperational(msg: string)
    requires Contains(Lower(msg), "hour")
    ensures DetectIntent(msg) == Operational
  {
    var s := Lower(msg);
    var i :| 0 <= i <= |s| - 4 && OccursAt(s, "hour", i);
    assert s[i..i + 4] == "hour";
    assert s[i + 2] == "hour"[2] == 'u';
    assert 'u' in s;
    assert 'u' !in "hi" && 'u' !in "hello" && 'u' !in "hey" && 'u' !in "bye" && 'u' !in "thanks";
    assert s !in Greetings;
    assert OperationalKeywords[7] == "hour";
  }

  /** "average" holds the EMS keyword "age", "patients" holds "patient" and
      "hour" is operational, so a message classified as compute contains none
      of them: the average and busiest-hour branches of `handle_compute`
      cannot be reached from `chat`. */
  lemma {:induction false} ComputeNeverSeesAverageOrHour(msg: string)
    requires DetectIntent(msg) == Compute
    ensures !Contains(Lower(msg), "average")
    ensures !Contains(Lower(msg), "patients")
    ensures !Contains(Lower(msg), "hour")
  {
    var s := Lower(msg);
    assert OperationalKeywords[7] == "hour";
    assert EmsKeywords[7] == "age" && EmsKeywords[5] == "patient";
    assert !Contains(s, "age") && !Contains(s, "patient");
    assert OccursAt("average", "age", 4);
    NotContainsSuperstring(s, "average", "age");
    assert OccursAt("patients", "patient", 0);
    NotContainsSuperstring(s, "patients", "patient");
  }

  /** A text lacking `small` lacks every string holding `small`. */
  lemma {:induction false} NotContainsSuperstring(s: string, big: string, small: string)
    requires !Contains(s, small) && Contains(big, small)
    ensures !Contains(s, big)
  {
    if Contains(s, big) {
      ContainsTransitive(s, big, small);
    }
  }

  // --------------------------------------------------- protocol lookup

  /** A `keyword_map` entry: the keyword and its related terms. */
  type KeywordEntry = (string, seq<string>)

  const KeywordMap: seq<KeywordEntry> := [
    ("allergic", ["allergic reaction", "anaphylaxis"]),
    ("cardiac arrest", ["cardiac arrest"]),
    ("chest pain", ["chest pain", "acute coronary syndrome", "stemi"]),
    ("asthma", ["bronchospasm", "asthma", "copd"]),
    ("respiratory", ["respiratory", "respiratory distress", "shortness of breath", "airway", "breathing", "breathe"]),
    ("seizure", ["seizure"]),
    ("stroke", ["stroke", "tia", "cva"]),
    ("trauma", ["traumatic", "trauma"]),
    ("shock", ["shock"]),
    ("drowning", ["drowning", "submersion"]),
    ("burns", ["burns"]),
    ("pediatric", ["pediatric", "pedi"]),
    ("newborn", ["newborn", "resuscitation"]),
    ("obstetric", ["obstetrical", "delivery", "obstetric"]),
    ("sepsis", ["sepsis"]),
    ("pain management", ["pain management"]),
    ("tachycardia", ["tachycardia"]),
    ("bradycardia", ["bradycardia"]),
    ("nausea", ["nausea", "vomiting"]),
    ("syncope", ["syncope", "fainting"]),
    ("abortion", ["abortion", "miscarriage"])
  ]

  /** An `AVAILABLE_PROTOCOLS` item: the lowercased key and the protocol name,
      in the dictionary's insertion order. */
  type Protocol = (string, string)

  /** The entry fires when the query holds its keyword or a related term. */
  predicate Triggered(q: string, e: KeywordEntry) {
    Contains(q, e.0) || ContainsAny(q, e.1)
  }

  /** The names of the protocols whose key holds one of `terms`, in order. */
  function Hits(terms: seq<string>, protocols: seq<Protocol>): (names: seq<string>)
    ensures forall x :: x in names <==>
              exists p :: p in protocols && ContainsAny(p.0, terms) && p.1 == x
    decreases |protocols|
  {
    if protocols == [] then []
    else
      var last := protocols[|protocols| - 1];
      var front := protocols[..|protocols| - 1];
      assert protocols == front + [last];
      Hits(terms, front) + (if ContainsAny(last.0, terms) then [last.1] else [])
  }

  /** Every name the nested loops of `retrieve_relevant_protocols` reach, with
      repeats: entry by entry in `keyword_map` order, protocol by protocol. */
  function Candidates(q: string, entries: seq<KeywordEntry>, protocols: seq<Protocol>): (names: seq<string>)
    ensures forall x :: x in names ==> exists p :: p in protocols && p.1 == x
    ensures (forall e :: e in entries ==> !Triggered(q, e)) ==> names == []
    decreases |entries|
  {
    if entries == [] then []
    else
      var last := entries[|entries| - 1];
      var front := entries[..|entries| - 1];
      assert forall e :: e in front ==> e in entries;
      var hits := FiredHits(q, last, protocols);
      var c := Candidates(q, front, protocols);
      NamedConcat(c, hits, protocols);
      c + hits
  }

  /** What one keyword entry adds to the candidates: its hits when it fires,
      nothing otherwise. */
  function FiredHits(q: string, e: KeywordEntry, protocols: seq<Protocol>): (names: seq<string>)
    ensures forall x :: x in names ==> exists p :: p in protocols && p.1 == x
    ensures !Triggered(q, e) ==> names == []
  {
    if Triggered(q, e) then
      var h := Hits(e.1, protocols);
      assert forall x :: x in h ==> exists p :: p in protocols && p.1 == x by {
        forall x | x in h ensures exists p :: p in protocols && p.1 == x {
          var p :| p in protocols && ContainsAny(p.0, e.1) && p.1 == x;
        }
      }
      h
    else []
  }

  /** Names of protocols, concatenated, are names of protocols. */
  lemma {:induction false} NamedConcat(a: seq<string>, b: seq<string>, protocols: seq<Protocol>)
    requires forall x :: x in a ==> exists p :: p in protocols && p.1 == x
    requires forall x :: x in b ==> exists p :: p in protocols && p.1 == x
    ensures forall x :: x in a + b ==> exists p :: p in protocols && p.1 == x
  {
    forall x | x in a + b ensures exists p :: p in protocols && p.1 == x {
      assert x in a || x in b;
    }
  }

  /** A name is a candidate exactly when some fired entry has a related term
      inside the key of a protocol with that name. */
  lemma {:induction false} CandidatesMeaning(q: string, entries: seq<KeywordEntry>, protocols: seq<Protocol>, x: string)
    ensures x in Candidates(q, entries, protocols) <==>
              exists e, p :: e in entries && p in protocols && Triggered(q, e)
                             && ContainsAny(p.0, e.1) && p.1 == x
    decreases |entries|
  {
    if entries != [] {
      var k := |entries| - 1;
      CandidatesSnoc(q, entries, protocols, k);
      assert entries[..k + 1] == entries;
      assert entries == entries[..k] + [entries[k]];
      CandidatesMeaning(q, entries[..k], protocols, x);
      CandidatesMeaningStep(q, entries[..k], entries[k], protocols, x,
        Candidates(q, entries[..k], protocols), Candidates(q, entries, protocols));
    }
  }

  /** The step of `CandidatesMeaning` for one more entry, over plain values. */
  lemma {:induction false} CandidatesMeaningStep(q: string, front: seq<KeywordEntry>, last: KeywordEntry,
                                                 protocols: seq<Protocol>, x: string, before: seq<string>, after: seq<string>)
    requires after == before + (if Triggered(q, last) then Hits(last.1, protocols) else [])
    requires x in before <==>
               exists e, p :: e in front && p in protocols && Triggered(q, e) && ContainsAny(p.0, e.1) && p.1 == x
    ensures x in after <==>
              exists e, p :: e in front + [last] && p in protocols && Triggered(q, e)
                             && ContainsAny(p.0, e.1) && p.1 == x
  {
    if x in after {
      CandidateHasWitness(q, front, last, protocols, x, before, after);
    }
    if exists e, p :: e in front + [last] && p in protocols && Triggered(q, e) && ContainsAny(p.0, e.1) && p.1 == x {
      WitnessIsCandidate(q, front, last, protocols, x, before, after);
    }
  }

  /** A new candidate comes from the last entry's hits. */
  lemma {:induction false} CandidateHasWitness(q: string, front: seq<KeywordEntry>, last: KeywordEntry,
                                               protocols: seq<Protocol>, x: string, before: seq<string>, after: seq<string>)
    requires after == before + (if Triggered(q, last) then Hits(last.1, protocols) else [])
    requires x in before ==>
               exists e, p :: e in front && p in protocols && Triggered(q, e) && ContainsAny(p.0, e.1) && p.1 == x
    requires x in after
    ensures exists e, p :: e in front + [last] && p in protocols && Triggered(q, e)
                           && ContainsAny(p.0, e.1) && p.1 == x
  {
    var entries := front + [last];
    if x in before {
      var e, p :| e in front && p in protocols && Triggered(q, e) && ContainsAny(p.0, e.1) && p.1 == x;
      assert e in entries;
    } else {
      assert Triggered(q, last) && x in Hits(last.1, protocols);
      var p :| p in protocols && ContainsAny(p.0, last.1) && p.1 == x;
      assert last in entries;
    }
  }

  /** A witness in the earlier entries or in the last one makes a candidate. */
  lemma {:induction false} WitnessIsCandidate(q: string, front: seq<KeywordEntry>, last: KeywordEntry,
                                              protocols: seq<Protocol>, x: string, before: seq<string>, after: seq<string>)
    requires after == before + (if Triggered(q, last) then Hits(last.1, protocols) else [])
    requires (exists e, p :: e in front && p in protocols && Triggered(q, e) && ContainsAny(p.0, e.1) && p.1 == x)
               ==> x in before
    requires exists e, p :: e in front + [last] && p in protocols && Triggered(q, e)
                            && ContainsAny(p.0, e.1) && p.1 == x
    ensures x in after
  {
    var e, p :| e in front + [last] && p in protocols && Triggered(q, e) && ContainsAny(p.0, e.1) && p.1 == x;
    if e != last {
      assert e in front;
    } else {
      assert x in Hits(last.1, protocols);
    }
  }

  /** `if name not in acc: acc.append(name)`, over a whole sequence. */
  function AddNew(acc: seq<string>, xs: seq<string>): (r: seq<string>)
    ensures |r| >= |acc| && r[..|acc|] == acc
    ensures forall x :: x in r <==> x in acc || x in xs
    decreases |xs|
  {
    if xs == [] then acc
    else
      var front := xs[..|xs| - 1];
      var prev := AddNew(acc, front);
      var x := xs[|xs| - 1];
      assert xs == front + [x];
      if x in prev then prev
      else
        assert (prev + [x])[..|acc|] == prev[..|acc|];
        prev + [x]
  }

  /** Appending only new names keeps the list free of repeats, and loses and
      invents nothing. */
  lemma {:induction false} AddNewSpec(acc: seq<string>, xs: seq<string>)
    requires Distinct(acc)
    ensures Distinct(AddNew(acc, xs))
    ensures forall x :: x in AddNew(acc, xs) <==> x in acc || x in xs
    ensures |AddNew(acc, xs)| >= |acc| && AddNew(acc, xs)[..|acc|] == acc
    decreases |xs|
  {
    if xs != [] {
      var front := xs[..|xs| - 1];
      AddNewSpec(acc, front);
      assert xs == front + [xs[|xs| - 1]];
    }
  }

  lemma {:induction false} AddNewSnoc(acc: seq<string>, xs: seq<string>, x: string)
    ensures AddNew(acc, xs + [x])
         == if x in AddNew(acc, xs) then AddNew(acc, xs) else AddNew(acc, xs) + [x]
  {
    assert (xs + [x])[..|xs|] == xs;
  }

  lemma {:induction false} HitsSnoc(terms: seq<string>, protocols: seq<Protocol>, j: nat)
    requires j < |protocols|
    ensures Hits(terms, protocols[..j + 1])
         == Hits(terms, protocols[..j]) + (if ContainsAny(protocols[j].0, terms) then [protocols[j].1] else [])
  {
    assert protocols[..j + 1][..j] == protocols[..j];
  }

  lemma {:induction false} CandidatesSnoc(q: string, entries: seq<KeywordEntry>, protocols: seq<Protocol>, k: nat)
    requires k < |entries|
    ensures Candidates(q, entries[..k + 1], protocols)
         == Candidates(q, entries[..k], protocols)
            + (if Triggered(q, entries[k]) then Hits(entries[k].1, protocols) else [])
  {
    assert entries[..k + 1][..k] == entries[..k];
  }

  /** The inner loop of `retrieve_relevant_protocols` for one fired entry:
      every protocol whose key holds a related term, appended when new. */
  method AddHits(matching: seq<string>, terms: seq<string>, protocols: seq<Protocol>, ghost before: seq<string>)
    returns (result: seq<string>)
    requires matching == AddNew([], before)
    ensures result == AddNew([], before + Hits(terms, protocols))
  {
    result := matching;
    var j := 0;
    assert protocols[..0] == [];
    assert before + Hits(terms, protocols[..0]) == before;
    while j < |protocols|
      invariant 0 <= j <= |protocols|
      invariant result == AddNew([], before + Hits(terms, protocols[..j]))
    {
      var p := protocols[j];
      HitsSnoc(terms, protocols, j);
      if ContainsAny(p.0, terms) {
        assert before + Hits(terms, protocols[..j + 1]) == before + Hits(terms, protocols[..j]) + [p.1];
        AddNewSnoc([], before + Hits(terms, protocols[..j]), p.1);
        if p.1 !in result {
          result := result + [p.1];
        }
      } else {
        assert before + Hits(terms, protocols[..j + 1]) == before + Hits(terms, protocols[..j]);
      }
      j := j + 1;
    }
    assert protocols[..j] == protocols;
  }

  /** The outer loop of `retrieve_relevant_protocols` over the entries of a
      keyword map. */
  method CollectMatches(q: string, entries: seq<KeywordEntry>, protocols: seq<Protocol>)
    returns (matching: seq<string>)
    ensures matching == AddNew([], Candidates(q, entries, protocols))
  {
    matching := [];
    var k := 0;
    while k < |entries|
      invariant 0 <= k <= |entries|
      invariant matching == AddNew([], Candidates(q, entries[..k], protocols))
    {
      matching := CollectEntry(q, entries, protocols, k, matching);
      k := k + 1;
    }
    assert entries[..k] == entries;
  }

  /** One round of the outer loop: entry `k` fires or not, and its hits are
      appended when new. */
  method CollectEntry(q: string, entries: seq<KeywordEntry>, protocols: seq<Protocol>, k: nat, matching: seq<string>)
    returns (next: seq<string>)
    requires k < |entries|
    requires matching == AddNew([], Candidates(q, entries[..k], protocols))
    ensures next == AddNew([], Candidates(q, entries[..k + 1], protocols))
  {
    var entry := entries[k];
    ghost var before := Candidates(q, entries[..k], protocols);
    CandidatesSnoc(q, entries, protocols, k);
    if Contains(q, entry.0) || ContainsAny(q, entry.1) {
      next := AddHits(matching, entry.1, protocols, before);
    } else {
      assert before + [] == before;
      next := matching;
    }
  }

  /** `retrieve_relevant_protocols`: the nested loops append each matching
      name not seen yet, and the list is cut to its first `top_k` names. */
  method RetrieveRelevantProtocols(query: string, protocols: seq<Protocol>, topK: int)
    returns (result: seq<string>)
    ensures result == Take(AddNew([], Candidates(Lower(query), KeywordMap, protocols)), topK)
    ensures Distinct(result)
    ensures forall x :: x in result ==> x in Candidates(Lower(query), KeywordMap, protocols)
  {
    var q := Lower(query);
    var matching := CollectMatches(q, KeywordMap, protocols);
    ghost var all := Candidates(q, KeywordMap, protocols);
    AddNewSpec([], all);
    result := Take(matching, topK);
    forall a, b | 0 <= a < b < |result| ensures result[a] != result[b] {
      assert result[a] == matching[a] && result[b] == matching[b];
    }
    forall x | x in result ensures x in all {
      assert x in matching;
    }
  }

  /** With no protocols loaded the lookup finds nothing. */
  lemma {:induction false} NoProtocolsNoHits(q: string, entries: seq<KeywordEntry>)
    ensures Candidates(q, entries, []) == []
    decreases |entries|
  {
    if entries != [] {
      NoProtocolsNoHits(q, entries[..|entries| - 1]);
    }
  }

  // ------------------------------------------------------------ paging

  /** The body of a `/dataset` response. */
  datatype Page<T> = Page(rows: seq<T>, totalRows: nat, page: int, totalPages: int)

  /** `get_dataset`: `start = (page-1)*limit`, the rows `df.iloc[start:end]`
      with Python slice bounds, and `total_pages = (total_rows+limit-1)//limit`,
      which raises ZeroDivisionError when `limit` is 0: for a positive limit
      the ceiling of `total_rows / limit`, 0 for an empty frame; for a
      negative limit the floor of `(total_rows + limit - 1) / limit`. */
  function GetDataset<T>(rows: seq<T>, page: int, limit: int): (r: Outcome<Page<T>>)
    ensures r.Raised? <==> limit == 0
    ensures r.Returned? ==> r.value.totalRows == |rows| && r.value.page == page
    ensures r.Returned? ==> r.value.rows == Slice(rows, (page - 1) * limit, (page - 1) * limit + limit)
    ensures limit > 0 ==> r.Returned? && |r.value.rows| <= limit
    ensures limit > 0 && rows != [] ==> (r.value.totalPages - 1) * limit < |rows| <= r.value.totalPages * limit
    ensures limit > 0 && rows == [] ==> r.value.totalPages == 0
    ensures limit < 0 ==> r.Returned? && r.value.totalPages * limit >= |rows| + limit - 1 > (r.value.totalPages + 1) * limit
  {
    var start := (page - 1) * limit;
    var end := start + limit;
    if limit == 0 then Raised
    else
      var totalPages := FloorDiv(|rows| + limit - 1, limit);
      Returned(Page(Slice(rows, start, end), |rows|, page, totalPages))
  }

  /** Row `i` is at position `i % limit` of page `i / limit + 1`, and that page
      is at most `total_pages`: the pages cover the frame in order. */
  lemma {:induction false} RowOnItsPage<T>(rows: seq<T>, limit: int, i: int)
    requires limit > 0 && 0 <= i < |rows|
    ensures var r := GetDataset(rows, i / limit + 1, limit);
            r.Returned? && 1 <= r.value.page <= r.value.totalPages
            && i % limit < |r.value.rows| && r.value.rows[i % limit] == rows[i]
  {
    var p := i / limit;
    var m := i % limit;
    PageOfRow(i, limit);
    var start := p * limit;
    var r := GetDataset(rows, p + 1, limit);
    PageWithinTotal(|rows|, limit, r.value.totalPages, p, i);
    StartOfPage(p, limit);
    var end := if start + limit <= |rows| then start + limit else |rows|;
    assert r.value.rows == Slice(rows, start, start + limit);
    assert r.value.rows == rows[start..end];
    assert r.value.rows[m] == rows[start + m];
  }

  lemma {:induction false} PageOfRow(i: int, limit: int)
    requires limit > 0 && 0 <= i
    ensures 0 <= i / limit && i == (i / limit) * limit + i % limit && 0 <= i % limit < limit
  {
  }

  lemma {:induction false} StartOfPage(p: int, limit: int)
    ensures (p + 1 - 1) * limit == p * limit
  {
  }

  lemma {:induction false} PageWithinTotal(n: int, limit: int, tp: int, p: int, i: int)
    requires limit > 0 && 0 <= p && p * limit <= i < n
    requires n <= tp * limit
    ensures p + 1 <= tp
  {
    if p >= tp {
      MulMonotone(tp, p, limit);
    }
  }

  lemma {:induction false} MulMonotone(a: int, b: int, limit: int)
    requires a <= b && limit > 0
    ensures a * limit <= b * limit
  {
  }

  /** `limit=0` makes the endpoint fail. */
  lemma {:induction false} ZeroLimitRaises<T>(rows: seq<T>, page: int)
    ensures GetDataset(rows, page, 0).Raised?
  {
  }

  // ------------------------------------------------------ query parsers

  /** First index at or after `i` whose character is not white space. */
  function SkipSpaces(q: string, i: nat): (k: nat)
    requires i <= |q|
    ensures i <= k <= |q|
    ensures forall j :: i <= j < k ==> IsSpace(q[j])
    ensures k < |q| ==> !IsSpace(q[k])
    decreases |q| - i
  {
    if i < |q| && IsSpace(q[i]) then SkipSpaces(q, i + 1) else i
  }

  /** First index at or after `i` whose character is not a digit. */
  function SkipDigits(q: string, i: nat): (k: nat)
    requires i <= |q|
    ensures i <= k <= |q|
    ensures forall j :: i <= j < k ==> IsDigit(q[j])
    ensures k < |q| ==> !IsDigit(q[k])
    decreases |q| - i
  {
    if i < |q| && IsDigit(q[i]) then SkipDigits(q, i + 1) else i
  }

  /** `top\s+(\d+)` matches at `i`: "top", at least one white-space character,
      and a digit after the (greedy) white-space run. */
  predicate TopMatchAt(q: string, i: nat) {
    i + 3 <= |q| && q[i..i + 3] == "top"
    && SkipSpaces(q, i + 3) > i + 3
    && SkipSpaces(q, i + 3) < |q| && IsDigit(q[SkipSpaces(q, i + 3)])
  }

  /** The leftmost match at or after `i`, if any. */
  function FindTop(q: string, i: nat): (r: Option<nat>)
    requires i <= |q|
    ensures r.Some? ==> i <= r.value < |q| && TopMatchAt(q, r.value)
    ensures r.Some? ==> forall j :: i <= j < r.value ==> !TopMatchAt(q, j)
    ensures r.None? ==> forall j :: i <= j ==> !TopMatchAt(q, j)
    decreases |q| - i
  {
    if i == |q| then None
    else if TopMatchAt(q, i) then Some(i)
    else FindTop(q, i + 1)
  }

  /** The "top N" limit of `handle_compute`: the number of the leftmost
      `top\s+(\d+)` match (the whole digit run, as `\d+` is greedy), else 10. */
  function TopLimit(q: string): (n: nat)
    ensures FindTop(q, 0).None? ==> n == 10
  {
    match FindTop(q, 0)
    case None => 10
    case Some(i) =>
      var d := SkipSpaces(q, i + 3);
      DigitsValue(q[d..SkipDigits(q, d)])
  }

  /** A message "... top N ..." asks for N rows, provided "top" does not
      occur earlier and N is not followed by more digits: "what are the top 5
      impressions" asks for 5. */
  lemma {:induction false} TopLimitRoundTrip(pre: string, n: nat, post: string)
    requires !Contains(pre, "top")
    requires post == [] || !IsDigit(post[0])
    ensures TopLimit(pre + "top " + NatToString(n) + post) == n
  {
    var digits := NatToString(n);
    var q := pre + "top " + digits + post;
    TopMatchHere(q, pre, digits, post);
    FindTopAfter(q, pre, "top " + digits + post);
    DigitsFollow(pre, digits, post);
    TopLimitOfMatch(q, |pre|, digits);
    DigitsValueOfNatToString(n);
  }

  /** With no "top" before it, the match at the end of `pre` is the leftmost. */
  lemma {:induction false} FindTopAfter(q: string, pre: string, rest: string)
    requires q == pre + rest && !Contains(pre, "top") && StartsWith(rest, "top")
    requires TopMatchAt(q, |pre|)
    ensures FindTop(q, 0) == Some(|pre|)
  {
    NoTopMatchInPrefix(pre, rest);
  }

  /** The limit read off the leftmost match at `i`, one space after "top". */
  lemma {:induction false} TopLimitOfMatch(q: string, i: nat, digits: string)
    requires FindTop(q, 0) == Some(i)
    requires SkipSpaces(q, i + 3) == i + 4
    requires SkipDigits(q, i + 4) == i + 4 + |digits| && q[i + 4..i + 4 + |digits|] == digits
    ensures TopLimit(q) == DigitsValue(digits)
  {
    var d := SkipSpaces(q, i + 3);
    assert q[d..SkipDigits(q, d)] == digits;
  }

  /** No match starts inside a "top"-free prefix of a text that goes on with
      "top": the word cannot overlap itself. */
  lemma {:induction false} NoTopMatchInPrefix(pre: string, rest: string)
    requires !Contains(pre, "top") && StartsWith(rest, "top")
    ensures forall j :: 0 <= j < |pre| ==> !TopMatchAt(pre + rest, j)
  {
    var q := pre + rest;
    forall j | 0 <= j < |pre| ensures !TopMatchAt(q, j) {
      assert q[|pre|] == rest[0] == 't';
      if j + 3 <= |pre| {
        assert q[j..j + 3] == pre[j..j + 3];
        assert !OccursAt(pre, "top", j);
      } else {
        assert q[j..j + 3][|pre| - j] == 't';
      }
    }
  }

  lemma {:induction false} TopMatchHere(q: string, pre: string, digits: string, post: string)
    requires |digits| >= 1 && IsDigit(digits[0])
    requires q == pre + "top " + digits + post
    ensures TopMatchAt(q, |pre|) && SkipSpaces(q, |pre| + 3) == |pre| + 4
  {
    var i := |pre|;
    var tail := "top " + digits + post;
    assert q == pre + tail;
    TailParts(digits, post);
    assert q[i..] == tail;
    assert q[i..i + 3] == tail[..3];
    assert q[i + 3] == tail[3];
    assert q[i + 4] == tail[4];
    TopMatchFromParts(q, i);
  }

  lemma {:induction false} TailParts(digits: string, post: string)
    requires |digits| >= 1
    ensures var tail := "top " + digits + post;
            tail[..3] == "top" && tail[3] == ' ' && tail[4] == digits[0]
  {
  }

  lemma {:induction false} TopMatchFromParts(q: string, i: nat)
    requires i + 4 < |q| && q[i..i + 3] == "top" && IsSpace(q[i + 3]) && IsDigit(q[i + 4])
    ensures TopMatchAt(q, i) && SkipSpaces(q, i + 3) == i + 4
  {
    assert !IsSpace(q[i + 4]);
    assert SkipSpaces(q, i + 4) == i + 4;
  }

  lemma {:induction false} DigitsFollow(pre: string, digits: string, post: string)
    requires forall t :: 0 <= t < |digits| ==> IsDigit(digits[t])
    requires post == [] || !IsDigit(post[0])
    ensures var q := pre + "top " + digits + post;
            var d := |pre| + 4;
            SkipDigits(q, d) == d + |digits| && q[d..d + |digits|] == digits
  {
    var q := pre + "top " + digits + post;
    var d := |pre| + 4;
    forall j | d <= j < d + |digits| ensures IsDigit(q[j]) {
      assert q[j] == digits[j - d];
    }
    if post != [] {
      assert q[d + |digits|] == post[0];
    }
    SkipDigitsOver(q, d, |digits|);
    assert q[d..d + |digits|] == digits;
  }

  lemma {:induction false} SkipDigitsOver(q: string, d: nat, len: nat)
    requires d + len <= |q|
    requires forall j :: d <= j < d + len ==> IsDigit(q[j])
    requires d + len == |q| || !IsDigit(q[d + len])
    ensures SkipDigits(q, d) == d + len
    decreases len
  {
    if len > 0 {
      SkipDigitsOver(q, d + 1, len - 1);
    }
  }

  /** A "top" that is not followed by white space and a number leaves the
      default: "what are the top impressions" asks for 10 rows. */
  lemma {:induction false} TopLimitDefault(pre: string, post: string)
    requires !Contains(pre, "top") && !Contains(post, "top")
    requires post == [] || (!IsSpace(post[0]) && !IsDigit(post[0]))
    ensures TopLimit(pre + "top " + post) == 10
  {
    var q := pre + "top " + post;
    var i := |pre|;
    assert q == pre + ("top " + post);
    NoTopMatchInPrefix(pre, "top " + post);
    assert IsSpace(q[i + 3]);
    if post != [] {
      assert q[i + 4] == post[0];
    }
    assert SkipSpaces(q, i + 4) == i + 4;
    assert !TopMatchAt(q, i);
    forall j | i < j ensures !TopMatchAt(q, j) {
      if j <= i + 3 {
        assert q[j] != 't';
        if j + 3 <= |q| {
          assert q[j..j + 3][0] == q[j];
        }
      } else if j + 3 <= |q| {
        assert q[j..j + 3] == post[j - i - 4..j - i - 1];
        assert !OccursAt(post, "top", j - i - 4);
      }
    }
  }

  /** The "how many" search term: the four phrases removed in this order,
      then the ends stripped. */
  function HowManySearchTerm(q: string): (term: string)
    ensures |term| <= |q|
    ensures term != [] ==> !IsSpace(term[0]) && !IsSpace(term[|term| - 1])
  {
    var a := Replace(q, "how many", "");
    var b := Replace(a, "incidents", "");
    var c := Replace(b, "patients", "");
    var d := Replace(c, "with", "");
    ReplaceByEmptyShrinks(q, "how many");
    ReplaceByEmptyShrinks(a, "incidents");
    ReplaceByEmptyShrinks(b, "patients");
    ReplaceByEmptyShrinks(c, "with");
    StripWhileSpec(d, IsSpace);
    Strip(d)
  }

  /** "how many <term>": the term comes back stripped, when it holds none
      of the four phrases ("how many cardiac arrest" searches for "cardiac
      arrest"). */
  lemma {:induction false} HowManyOfTerm(t: string)
    requires !Contains(t, "how many") && !Contains(t, "incidents")
    requires !Contains(t, "patients") && !Contains(t, "with")
    ensures HowManySearchTerm("how many " + t) == Strip(t)
  {
    var q := "how many " + t;
    var s := " " + t;
    assert q[..8] == "how many" && q[8..] == s;
    ConsAbsent(' ', t, "how many");
    ConsAbsent(' ', t, "incidents");
    ConsAbsent(' ', t, "patients");
    ConsAbsent(' ', t, "with");
    ReplaceAbsent(s, "how many", "");
    assert Replace(q, "how many", "") == s;
    ReplaceAbsent(s, "incidents", "");
    ReplaceAbsent(s, "patients", "");
    ReplaceAbsent(s, "with", "");
    assert s[1..] == t;
    assert LStripWhile(s, IsSpace) == LStripWhile(t, IsSpace);
  }

  /** A character that cannot start the pattern adds no occurrence in front. */
  lemma {:induction false} ConsAbsent(c: char, t: string, pat: string)
    requires |pat| > 0 && pat[0] != c && !Contains(t, pat)
    ensures !Contains([c] + t, pat)
  {
    var s := [c] + t;
    forall i | 0 <= i <= |s| - |pat| ensures !OccursAt(s, pat, i) {
      if i == 0 {
        assert s[0..|pat|][0] == c;
      } else {
        assert s[i..i + |pat|] == t[i - 1..i - 1 + |pat|];
        assert !OccursAt(t, pat, i - 1);
      }
    }
  }

  // -------------------------------------------------------------- chat

  const EmptyMessageAnswer: string := "Hi! How can I help?"

  /** Where `chat` sends a message: the fixed answer for an empty message, or
      the stripped message with its intent. */
  datatype ChatRoute = Answered(answer: string) | Routed(intent: Intent, msg: string)

  /** The guard at the top of `chat`. */
  function ChatRouting(message: string): (r: ChatRoute)
    ensures r.Answered? <==> Strip(message) == []
    ensures r.Answered? ==> r.answer == EmptyMessageAnswer
    ensures r.Routed? ==> r.msg == Strip(message) && r.intent == DetectIntent(Strip(message))
  {
    var msg := Strip(message);
    if msg == [] then Answered(EmptyMessageAnswer) else Routed(DetectIntent(msg), msg)
  }

  /** A message of white space only never reaches the classifier. */
  lemma {:induction false} BlankMessageGreets(message: string)
    requires forall i :: 0 <= i < |message| ==> IsSpace(message[i])
    ensures ChatRouting(message) == Answered(EmptyMessageAnswer)
  {
    StripWhileSpec(message, IsSpace);
  }

  /** The classifier only ever sees a non-empty message with no white space
      at either end. */
  lemma {:induction false} RoutedMessageIsTrimmed(message: string)
    requires ChatRouting(message).Routed?
    ensures var m := ChatRouting(message).msg;
            m != [] && !IsSpace(m[0]) && !IsSpace(m[|m| - 1])
  {
    StripWhileSpec(message, IsSpace);
  }
}
