/** The per-card check of the FRice distribution report: for one ration card,
    classify the portal's reply as "Done", "Not Done" or "Unknown" for the
    current month, and collect the records of a whole batch.

    The network, the HTML parser and the clock are inputs: the portal's reply
    is a `Response` that already carries the text of each HTML table in page
    order, and the current month is a `Month`. */
module Frice {
  import opened Text

  datatype Option<T> = None | Some(value: T)

  /** The months `datetime.strftime("%B")` names. */
  datatype Month =
    | January | February | March | April | May | June
    | July | August | September | October | November | December

  /** The lower-cased English month name the report searches for. */
  function MonthName(m: Month): (name: string)
    ensures name != []
    ensures forall j | 0 <= j < |name| :: 'a' <= name[j] <= 'z'
  {
    match m
    case January => "january"
    case February => "february"
    case March => "march"
    case April => "april"
    case May => "may"
    case June => "june"
    case July => "july"
    case August => "august"
    case September => "september"
    case October => "october"
    case November => "november"
    case December => "december"
  }

  /** The value of a record's `transaction_status`. */
  datatype Status = Done | NotDone | Unknown

  function StatusText(s: Status): string {
    match s
    case Done => "Done"
    case NotDone => "Not Done"
    case Unknown => "Unknown"
  }

  /** One element of the input list: the values under `CARDNO` and
      `HEAD OF THE FAMILY`, `None` when the key is absent. */
  datatype Entry = Entry(cardNo: Option<string>, headName: Option<string>)

  /** The outcome of the portal request: an exception from the HTTP client,
      or a reply with its status code and the text of each of its tables. */
  datatype Response =
    | RequestFailed
    | Reply(statusCode: int, tableTexts: seq<string>)

  /** One element of the output list. */
  datatype Record = Record(cardNo: string, headName: string, status: Status)

  /** The head name the record carries: "Unknown" when the key is absent. */
  function HeadName(e: Entry): string {
    match e.headName
    case Some(h) => h
    case None => "Unknown"
  }

  /** A table is the current month's transaction-details table: its lowered
      text contains "transaction details" and, ignoring case, the month name. */
  predicate Qualifies(tableText: string, month: Month) {
    var lowered := Lower(tableText);
    Contains(lowered, "transaction details") && ContainsIgnoringCase(lowered, MonthName(month))
  }

  /** The status the table scan settles on: the first qualifying table
      decides, by whether it mentions "FRice (KG)"; no qualifying table
      leaves "Not Done". */
  function Verdict(tables: seq<string>, month: Month): (v: Status)
    ensures v != Unknown
  {
    if tables == [] then NotDone
    else if Qualifies(tables[0], month) then (if HasFriceKg(tables[0]) then Done else NotDone)
    else Verdict(tables[1..], month)
  }

  /** Index `i` holds the first qualifying table. */
  ghost predicate IsFirstQualifying(tables: seq<string>, month: Month, i: nat) {
    && i < |tables|
    && Qualifies(tables[i], month)
    && forall j | 0 <= j < i :: !Qualifies(tables[j], month)
  }

  /** The record `check_rc` returns, `None` when the entry has no card number. */
  function RecordFor(entry: Entry, response: Response, month: Month): (r: Option<Record>)
    ensures r.None? <==> entry.cardNo == None || entry.cardNo == Some("")
    ensures r.Some? ==> r.value.cardNo == entry.cardNo.value
    ensures r.Some? ==> r.value.headName == if entry.headName.Some? then entry.headName.value else "Unknown"
    ensures r.Some? ==>
      (r.value.status == Unknown <==> response.RequestFailed? || response.statusCode != 200)
  {
    match entry.cardNo
    case None => None
    case Some(cardNo) =>
      if cardNo == "" then None
      else if response.RequestFailed? || response.statusCode != 200 then
        Some(Record(cardNo, HeadName(entry), Unknown))
      else
        Some(Record(cardNo, HeadName(entry), Verdict(response.tableTexts, month)))
  }

  /** `check_rc`: the early exits, then the scan over the tables that stops
      at the first table of the current month's transaction details. */
  method CheckRc(entry: Entry, response: Response, month: Month) returns (r: Option<Record>)
    ensures r == RecordFor(entry, response, month)
  {
    if entry.cardNo == None || entry.cardNo.value == "" {
      return None;
    }
    var cardNo := entry.cardNo.value;
    var headName := HeadName(entry);
    if response.RequestFailed? || response.statusCode != 200 {
      return Some(Record(cardNo, headName, Unknown));
    }
    var tables := response.tableTexts;
    var status := NotDone;
    var i := 0;
    while i < |tables|
      invariant i <= |tables|
      invariant Verdict(tables[i..], month) == Verdict(tables, month)
    {
      var lowered := Lower(tables[i]);
      if Contains(lowered, "transaction details") && ContainsIgnoringCase(lowered, MonthName(month)) {
        if HasFriceKg(tables[i]) {
          status := Done;
        }
        break;
      }
      assert tables[i..][1..] == tables[i + 1..];
      i := i + 1;
    }
    return Some(Record(cardNo, headName, status));
  }

  // ---------------------------------------------------------------------
  // Properties of the table scan

  /** The first qualifying table alone decides the status. */
  lemma {:induction false} VerdictOfFirst(tables: seq<string>, month: Month, i: nat)
    requires IsFirstQualifying(tables, month, i)
    ensures Verdict(tables, month) == if HasFriceKg(tables[i]) then Done else NotDone
  {
    if i > 0 {
      assert IsFirstQualifying(tables[1..], month, i - 1);
      VerdictOfFirst(tables[1..], month, i - 1);
    }
  }

  /** With no qualifying table the status stays "Not Done". */
  lemma {:induction false} VerdictWithoutQualifying(tables: seq<string>, month: Month)
    requires forall j | 0 <= j < |tables| :: !Qualifies(tables[j], month)
    ensures Verdict(tables, month) == NotDone
  {
    if tables != [] {
      VerdictWithoutQualifying(tables[1..], month);
    }
  }

  /** Some table qualifies exactly when there is a first qualifying one. */
  lemma {:induction false} FirstQualifyingExists(tables: seq<string>, month: Month, i: nat)
    requires i < |tables| && Qualifies(tables[i], month)
    ensures exists f: nat :: f <= i && IsFirstQualifying(tables, month, f)
  {
    if !Qualifies(tables[0], month) {
      FirstQualifyingExists(tables[1..], month, i - 1);
      var f: nat :| f <= i - 1 && IsFirstQualifying(tables[1..], month, f);
      assert IsFirstQualifying(tables, month, f + 1);
    } else {
      assert IsFirstQualifying(tables, month, 0);
    }
  }

  /** "Done" exactly when the first qualifying table matches
      `\bfrice\s*\(kg\)`. */
  lemma VerdictDoneIff(tables: seq<string>, month: Month)
    ensures Verdict(tables, month) == Done <==>
      exists i: nat :: IsFirstQualifying(tables, month, i) && HasFriceKg(tables[i])
  {
    if exists j: nat :: j < |tables| && Qualifies(tables[j], month) {
      var j: nat :| j < |tables| && Qualifies(tables[j], month);
      FirstQualifyingExists(tables, month, j);
      var f: nat :| f <= j && IsFirstQualifying(tables, month, f);
      VerdictOfFirst(tables, month, f);
      forall i: nat | IsFirstQualifying(tables, month, i)
        ensures i == f
      {
        assert !(i < f) && !(f < i);
      }
    } else {
      VerdictWithoutQualifying(tables, month);
    }
  }

  /** Tables after the first qualifying one never change the status: the scan
      has already stopped. */
  lemma VerdictIgnoresLater(tables: seq<string>, other: seq<string>, month: Month, i: nat)
    requires IsFirstQualifying(tables, month, i)
    requires i < |other| && other[..i + 1] == tables[..i + 1]
    ensures Verdict(other, month) == Verdict(tables, month)
  {
    assert forall j | 0 <= j <= i :: other[j] == other[..i + 1][j] == tables[..i + 1][j] == tables[j];
    assert IsFirstQualifying(other, month, i);
    VerdictOfFirst(tables, month, i);
    VerdictOfFirst(other, month, i);
  }

  /** Tables before the first qualifying one never change the status, even
      when they mention "FRice (KG)". */
  lemma {:induction false} VerdictIgnoresEarlier(earlier: seq<string>, rest: seq<string>, month: Month)
    requires forall j | 0 <= j < |earlier| :: !Qualifies(earlier[j], month)
    ensures Verdict(earlier + rest, month) == Verdict(rest, month)
  {
    if earlier != [] {
      assert (earlier + rest)[0] == earlier[0];
      assert (earlier + rest)[1..] == earlier[1..] + rest;
      VerdictIgnoresEarlier(earlier[1..], rest, month);
    } else {
      assert earlier + rest == rest;
    }
  }

  /** The month search lowers the text and ignores case, so it is plain
      substring search of the month name in the lowered text. */
  lemma MonthSearchIsSubstring(tableText: string, month: Month)
    ensures Qualifies(tableText, month) <==>
      Contains(Lower(tableText), "transaction details") && Contains(Lower(tableText), MonthName(month))
  {
    var name := MonthName(month);
    assert Lower(name) == name;
    SearchLoweredText(tableText, name);
  }

  /** Changing the case of ASCII letters in any table text leaves the status
      as it was. */
  lemma {:induction false} VerdictCaseInsensitive(tables: seq<string>, others: seq<string>, month: Month)
    requires |others| == |tables|
    requires forall j | 0 <= j < |tables| :: SameIgnoringCase(tables[j], others[j])
    ensures Verdict(others, month) == Verdict(tables, month)
  {
    if tables != [] {
      FriceKgCaseInsensitive(tables[0], others[0]);
      VerdictCaseInsensitive(tables[1..], others[1..], month);
    }
  }

  // ---------------------------------------------------------------------
  // The batch

  /** Every index in `order` names one of `n` entries. */
  predicate ValidIndices(order: seq<nat>, n: nat) {
    forall k | 0 <= k < |order| :: order[k] < n
  }

  /** The indices 0, 1, ..., n - 1: the order the entries are submitted in. */
  function Indices(n: nat): seq<nat> {
    seq(n, i requires 0 <= i < n => i as nat)
  }

  /** What `check_rc` returns for each entry, in input order. */
  function Results(entries: seq<Entry>, responses: seq<Response>, month: Month): seq<Option<Record>>
    requires |responses| == |entries|
  {
    seq(|entries|, i requires 0 <= i < |entries| => RecordFor(entries[i], responses[i], month))
  }

  /** The result at index `i`, or `None` past the end. */
  function ResultAt(results: seq<Option<Record>>, i: nat): Option<Record> {
    if i < |results| then results[i] else None
  }

  /** The results at the indices of `order`, in that order, with every
      `None` dropped. */
  function Gather(results: seq<Option<Record>>, order: seq<nat>): seq<Record> {
    if order == [] then []
    else
      Gather(results, order[..|order| - 1])
      + match ResultAt(results, order[|order| - 1])
        case Some(r) => [r]
        case None => []
  }

  lemma {:induction false} GatherConcat(results: seq<Option<Record>>, a: seq<nat>, b: seq<nat>)
    ensures Gather(results, a + b) == Gather(results, a) + Gather(results, b)
  {
    if b != [] {
      var b' := b[..|b| - 1];
      assert (a + b)[..|a + b| - 1] == a + b';
      assert (a + b)[|a + b| - 1] == b[|b| - 1];
      GatherConcat(results, a, b');
    } else {
      assert a + b == a;
    }
  }

  /** Splitting a sequence around index `j`. */
  lemma RemoveAt(b: seq<nat>, j: nat) returns (lo: seq<nat>, hi: seq<nat>)
    requires j < |b|
    ensures b == lo + [b[j]] + hi
    ensures multiset(lo + hi) == multiset(b) - multiset{b[j]}
  {
    lo, hi := b[..j], b[j + 1..];
    assert b == lo + [b[j]] + hi;
    assert multiset(b) == multiset(lo) + multiset{b[j]} + multiset(hi);
    assert multiset(lo + hi) == multiset(lo) + multiset(hi);
  }

  lemma MultisetRearrange(s: seq<Record>, lo: seq<Record>, hi: seq<Record>, mid: seq<Record>)
    requires multiset(s) == multiset(lo + hi)
    ensures multiset(s + mid) == multiset(lo + mid + hi)
  {
  }

  /** The records gathered do not depend, as a multiset, on the order in
      which the results are visited. */
  lemma {:induction false} GatherPermutation(results: seq<Option<Record>>, a: seq<nat>, b: seq<nat>)
    requires multiset(a) == multiset(b)
    ensures multiset(Gather(results, a)) == multiset(Gather(results, b))
    decreases |a|
  {
    if a == [] {
      assert b == [] by { assert |multiset(b)| == 0; }
      return;
    }
    var a', x := a[..|a| - 1], a[|a| - 1];
    assert a == a' + [x];
    assert x in multiset(b);
    var j :| 0 <= j < |b| && b[j] == x;
    var lo, hi := RemoveAt(b, j);
    assert multiset(a') == multiset(lo + hi) by {
      assert multiset(a) == multiset(a') + multiset{x};
    }
    GatherConcat(results, lo, hi);
    GatherPermutation(results, a', lo + hi);
    GatherConcat(results, a', [x]);
    GatherConcat(results, lo, [x]);
    GatherConcat(results, lo + [x], hi);
    MultisetRearrange(Gather(results, a'), Gather(results, lo), Gather(results, hi), Gather(results, [x]));
  }

  /** A permutation of the indices names only entries. */
  lemma PermutationIsValid(order: seq<nat>, n: nat)
    requires multiset(order) == multiset(Indices(n))
    ensures ValidIndices(order, n)
  {
    forall k | 0 <= k < |order|
      ensures order[k] < n
    {
      assert order[k] in multiset(Indices(n));
    }
  }

  /** The driver: run `check_rc` on every entry, in the order the calls
      complete (`completion`, any permutation of the entry indices), and
      append each result that is not `None`. */
  method CollectRecords(entries: seq<Entry>, responses: seq<Response>, month: Month, completion: seq<nat>)
    returns (data: seq<Record>)
    requires |responses| == |entries|
    requires multiset(completion) == multiset(Indices(|entries|))
    ensures data == Gather(Results(entries, responses, month), completion)
    ensures multiset(data) == multiset(Gather(Results(entries, responses, month), Indices(|entries|)))
  {
    PermutationIsValid(completion, |entries|);
    ghost var results := Results(entries, responses, month);
    data := [];
    for k := 0 to |completion|
      invariant data == Gather(results, completion[..k])
    {
      var idx := completion[k];
      var r := CheckRc(entries[idx], responses[idx], month);
      assert completion[..k + 1][..k] == completion[..k];
      if r.Some? {
        data := data + [r.value];
      }
    }
    assert completion[..|completion|] == completion;
    GatherPermutation(results, completion, Indices(|entries|));
  }
}
