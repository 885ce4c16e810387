/** Hand-entered polls: the batch `AddPolls` validates and builds, its way into the store, and out again
    through the export into the merged table. */
module ManualPolls {
  import opened Options
  import opened Decimals
  import opened FinalizedStore
  import opened CsvExport
  import opened Ratings

  datatype VoterWeb = VoterWeb(id: Snowflake, choice: int)

  datatype NewPollWeb = NewPollWeb(id: Snowflake, title: string, votes: seq<VoterWeb>)

  datatype AddError = BadPollID | DuplicatePollID | InvalidVoteChoice | DuplicateVoter

  datatype Outcome = Created | BadRequest(error: AddError) | StoreFailed

  /** A choice is an index into these. */
  const CHOICES: seq<string> := [
    "N/A", [STAR], [STAR, STAR], [STAR, STAR, STAR], [STAR, STAR, STAR, STAR], [STAR, STAR, STAR, STAR, STAR]]

  const MANUAL_ANSWER_ID := -1

  // ---------------------------------------------------------------- what a request means

  function VoterIds(votes: seq<VoterWeb>): set<Snowflake> {
    set v | v in votes :: v.id
  }

  /** The first thing wrong with the votes of a poll. */
  function VoteError(votes: seq<VoterWeb>): Option<AddError> {
    if votes == [] then None
    else
      var n := |votes| - 1;
      var before := VoteError(votes[..n]);
      if before.Some? then before
      else if votes[n].choice < 0 || votes[n].choice >= |CHOICES| then Some(InvalidVoteChoice)
      else if votes[n].id in VoterIds(votes[..n]) then Some(DuplicateVoter)
      else None
  }

  function PollIds(data: seq<NewPollWeb>): set<Snowflake> {
    set p | p in data :: p.id
  }

  /** The first thing wrong with a batch. */
  function FirstError(data: seq<NewPollWeb>): Option<AddError> {
    if data == [] then None
    else
      var n := |data| - 1;
      var before := FirstError(data[..n]);
      if before.Some? then before
      else if ParseUint(data[n].id).None? then Some(BadPollID)
      else if data[n].id in PollIds(data[..n]) then Some(DuplicatePollID)
      else VoteError(data[n].votes)
  }

  /** The voters of one choice, in the order they were submitted. */
  function VotersOf(votes: seq<VoterWeb>, choice: int): seq<Snowflake> {
    if votes == [] then []
    else
      var last := votes[|votes| - 1];
      VotersOf(votes[..|votes| - 1], choice) + (if last.choice == choice then [last.id] else [])
  }

  function AnswersOf(votes: seq<VoterWeb>): (a: seq<RecordAnswer>)
    ensures |a| == |CHOICES|
    ensures forall i :: 0 <= i < |a| ==> a[i] == RecordAnswer(CHOICES[i], MANUAL_ANSWER_ID, VotersOf(votes, i))
  {
    seq(|CHOICES|, i requires 0 <= i < |CHOICES| => RecordAnswer(CHOICES[i], MANUAL_ANSWER_ID, VotersOf(votes, i)))
  }

  function RecordOf(p: NewPollWeb): FinalRecord {
    FinalRecord(AnswersOf(p.votes), CHOICES, p.id, "", p.title, false)
  }

  function Records(data: seq<NewPollWeb>): (r: seq<Option<FinalRecord>>)
    ensures |r| == |data| && forall i :: 0 <= i < |r| ==> r[i] == Some(RecordOf(data[i]))
  {
    seq(|data|, i requires 0 <= i < |data| => Some(RecordOf(data[i])))
  }

  // ---------------------------------------------------------------- which batches are accepted

  predicate ValidVotes(votes: seq<VoterWeb>) {
    && (forall i :: 0 <= i < |votes| ==> 0 <= votes[i].choice < |CHOICES|)
    && (forall i, j :: 0 <= i < j < |votes| ==> votes[i].id != votes[j].id)
  }

  lemma NewVoterIff(votes: seq<VoterWeb>)
    requires votes != []
    ensures votes[|votes| - 1].id !in VoterIds(votes[..|votes| - 1]) <==>
            forall i :: 0 <= i < |votes| - 1 ==> votes[i].id != votes[|votes| - 1].id
  {
    var n := |votes| - 1;
    forall i | 0 <= i < n ensures votes[i] in votes[..n] {
      assert votes[..n][i] == votes[i];
    }
  }

  lemma {:induction false} VotesAcceptedIff(votes: seq<VoterWeb>)
    ensures VoteError(votes).None? <==> ValidVotes(votes)
  {
    hide VoterIds;
    if votes != [] {
      var n := |votes| - 1;
      VotesAcceptedIff(votes[..n]);
      NewVoterIff(votes);
      forall i | 0 <= i < n ensures votes[..n][i] == votes[i] {
      }
    }
  }

  /** A batch is accepted exactly when every id is a snowflake, no id text repeats, and every poll's votes
      are valid. */
  lemma {:induction false} AcceptedIff(data: seq<NewPollWeb>)
    ensures FirstError(data).None? <==>
            && (forall i :: 0 <= i < |data| ==> ParseUint(data[i].id).Some? && ValidVotes(data[i].votes))
            && (forall i, j :: 0 <= i < j < |data| ==> data[i].id != data[j].id)
  {
    hide ParseUint, ValidVotes, VoteError;
    if data != [] {
      var n := |data| - 1;
      AcceptedIff(data[..n]);
      VotesAcceptedIff(data[n].votes);
      NewIdIff(data);
      forall i | 0 <= i < n ensures data[..n][i] == data[i] {
      }
    }
  }

  lemma NewIdIff(data: seq<NewPollWeb>)
    requires data != []
    ensures data[|data| - 1].id !in PollIds(data[..|data| - 1]) <==>
            forall i :: 0 <= i < |data| - 1 ==> data[i].id != data[|data| - 1].id
  {
    var n := |data| - 1;
    forall i | 0 <= i < n ensures data[i] in data[..n] {
      assert data[..n][i] == data[i];
    }
  }

  /** The error a poll's votes get is that of the first bad vote: a choice that does not exist, or else a voter
      who has voted already. */
  lemma {:induction false} FirstBadVote(votes: seq<VoterWeb>) returns (i: nat)
    requires VoteError(votes).Some?
    ensures i < |votes| && ValidVotes(votes[..i])
    ensures var exists_ := 0 <= votes[i].choice < 6;
            if !exists_ then VoteError(votes) == Some(InvalidVoteChoice)
            else VoteError(votes) == Some(DuplicateVoter) && exists j :: 0 <= j < i && votes[j].id == votes[i].id
  {
    var n := |votes| - 1;
    if VoteError(votes[..n]).Some? {
      i := FirstBadVote(votes[..n]);
      assert votes[..n][..i] == votes[..i];
    } else {
      i := n;
      VotesAcceptedIff(votes[..n]);
      NewVoterIff(votes);
    }
  }

  predicate GoodBatch(data: seq<NewPollWeb>) {
    && (forall i :: 0 <= i < |data| ==> ParseUint(data[i].id).Some? && ValidVotes(data[i].votes))
    && (forall i, j :: 0 <= i < j < |data| ==> data[i].id != data[j].id)
  }

  /** The error a batch gets is that of its first bad poll: an id that is no snowflake, or else one submitted
      before, or else that of its votes. */
  lemma {:induction false} FirstBadPoll(data: seq<NewPollWeb>) returns (i: nat)
    requires FirstError(data).Some?
    ensures i < |data| && GoodBatch(data[..i])
    ensures if ParseUint(data[i].id).None? then FirstError(data) == Some(BadPollID)
            else if exists j :: 0 <= j < i && data[j].id == data[i].id then FirstError(data) == Some(DuplicatePollID)
            else FirstError(data) == VoteError(data[i].votes)
  {
    hide ParseUint, VoteError, ValidVotes;
    var n := |data| - 1;
    if FirstError(data[..n]).Some? {
      i := FirstBadPoll(data[..n]);
      assert data[..n][..i] == data[..i];
      assert forall j :: 0 <= j < i ==> data[..n][j] == data[j];
    } else {
      i := n;
      AcceptedIff(data[..n]);
      NewIdIff(data);
    }
  }

  // ---------------------------------------------------------------- the handler

  lemma {:induction false} VoteErrorStays(votes: seq<VoterWeb>, k: nat)
    requires k <= |votes| && VoteError(votes[..k]).Some?
    ensures VoteError(votes) == VoteError(votes[..k])
    decreases |votes| - k
  {
    if k == |votes| {
      assert votes[..k] == votes;
    } else {
      assert votes[..k + 1][..k] == votes[..k];
      VoteErrorStays(votes, k + 1);
    }
  }

  lemma {:induction false} FirstErrorStays(data: seq<NewPollWeb>, k: nat)
    requires k <= |data| && FirstError(data[..k]).Some?
    ensures FirstError(data) == FirstError(data[..k])
    decreases |data| - k
  {
    if k == |data| {
      assert data[..k] == data;
    } else {
      assert data[..k + 1][..k] == data[..k];
      FirstErrorStays(data, k + 1);
    }
  }

  lemma OneMoreVoter(votes: seq<VoterWeb>, j: nat)
    requires j < |votes| && 0 <= votes[j].choice < |CHOICES|
    ensures var answers, c := AnswersOf(votes[..j]), votes[j].choice;
            AnswersOf(votes[..j + 1]) == answers[c := answers[c].(voters := answers[c].voters + [votes[j].id])]
  {
    assert votes[..j + 1][..j] == votes[..j];
    var answers, c := AnswersOf(votes[..j]), votes[j].choice;
    var after := answers[c := answers[c].(voters := answers[c].voters + [votes[j].id])];
    forall i | 0 <= i < |CHOICES| ensures AnswersOf(votes[..j + 1])[i] == after[i] {
    }
  }

  /** Every option gets an answer, voted or not; each vote joins the answer of its choice. */
  method BuildAnswers(votes: seq<VoterWeb>) returns (answers: seq<RecordAnswer>, error: Option<AddError>)
    ensures error == VoteError(votes)
    ensures error.None? ==> answers == AnswersOf(votes)
  {
    answers := [];
    hide VotersOf;
    NoVotersOf();
    for i := 0 to |CHOICES|
      invariant |answers| == i
      invariant forall k :: 0 <= k < i ==> answers[k] == RecordAnswer(CHOICES[k], MANUAL_ANSWER_ID, [])
    {
      answers := answers + [RecordAnswer(CHOICES[i], MANUAL_ANSWER_ID, [])];
    }
    var seenVoters: set<Snowflake> := {};
    for j := 0 to |votes|
      invariant VoteError(votes[..j]).None? && seenVoters == VoterIds(votes[..j])
      invariant answers == AnswersOf(votes[..j])
    {
      var vote := votes[j];
      assert votes[..j + 1][..j] == votes[..j];
      if vote.choice < 0 || vote.choice >= |CHOICES| {
        VoteErrorStays(votes, j + 1);
        return answers, Some(InvalidVoteChoice);
      }
      if vote.id in seenVoters {
        VoteErrorStays(votes, j + 1);
        return answers, Some(DuplicateVoter);
      }
      seenVoters := seenVoters + {vote.id};
      OneMoreVoter(votes, j);
      assert votes[..j + 1] == votes[..j] + [vote];
      var answer := answers[vote.choice];
      answers := answers[vote.choice := answer.(voters := answer.voters + [vote.id])];
    }
    assert votes[..|votes|] == votes;
    return answers, None;
  }

  lemma NoPolls()
    ensures FirstError([]) == None && PollIds([]) == {} && Records([]) == []
  {
  }

  lemma NoVotersOf()
    ensures forall c :: VotersOf([], c) == []
  {
  }

  lemma OneMorePoll(data: seq<NewPollWeb>, i: nat)
    requires i < |data|
    ensures var before, p := FirstError(data[..i]), data[i];
            FirstError(data[..i + 1]) ==
            if before.Some? then before else if ParseUint(p.id).None? then Some(BadPollID)
            else if p.id in PollIds(data[..i]) then Some(DuplicatePollID) else VoteError(p.votes)
    ensures PollIds(data[..i + 1]) == PollIds(data[..i]) + {data[i].id}
    ensures Records(data[..i + 1]) == Records(data[..i]) + [Some(RecordOf(data[i]))]
  {
    hide VoteError, AnswersOf, ParseUint;
    assert data[..i + 1][..i] == data[..i];
    assert data[..i + 1] == data[..i] + [data[i]];
  }

  /** `AddPolls`: the whole batch validates before anything is written. */
  method AddPolls(store: Store, data: seq<NewPollWeb>, dbOk: bool) returns (r: Outcome)
    modifies store`manual
    ensures FirstError(data).Some? ==> r == BadRequest(FirstError(data).value)
    ensures r != Created ==> store.manual == old(store.manual)
    ensures r == Created ==> FirstError(data).None? && Written(old(store.manual), data, store.manual)
    ensures FirstError(data).None? && (dbOk || data == []) ==> r == Created
    ensures r.BadRequest? ==> FirstError(data) == Some(r.error)
  {
    hide VoteError, AnswersOf, WithManual, ParseUint, Written, FirstError, PollIds;
    NoPolls();
    var records: seq<Option<FinalRecord>> := [];
    var seenPolls: set<Snowflake> := {};
    for i := 0 to |data|
      invariant FirstError(data[..i]).None? && seenPolls == PollIds(data[..i])
      invariant records == Records(data[..i])
      invariant store.manual == old(store.manual)
    {
      var p := data[i];
      OneMorePoll(data, i);
      if ParseUint(p.id).None? {
        FirstErrorStays(data, i + 1);
        return BadRequest(BadPollID);
      }
      if p.id in seenPolls {
        FirstErrorStays(data, i + 1);
        return BadRequest(DuplicatePollID);
      }
      seenPolls := seenPolls + {p.id};
      var answers, error := BuildAnswers(p.votes);
      if error.Some? {
        FirstErrorStays(data, i + 1);
        return BadRequest(error.value);
      }
      records := records + [Some(FinalRecord(answers, CHOICES, p.id, "", p.title, false))];
    }
    assert data[..|data|] == data;
    AcceptedRows(store.manual, data);
    var ok := store.InsertManual(records, dbOk);
    return if ok then Created else StoreFailed;
  }

  // ---------------------------------------------------------------- into the store

  /** The key a poll is stored under. */
  function Key(p: NewPollWeb): nat {
    KeyOf(p.id).GetOr(0)
  }

  predicate LastOfKey(data: seq<NewPollWeb>, i: nat)
    requires i < |data|
  {
    forall j :: i < j < |data| ==> Key(data[j]) != Key(data[i])
  }

  predicate IsKey(data: seq<NewPollWeb>, n: nat) {
    exists i :: 0 <= i < |data| && Key(data[i]) == n
  }

  /** What writing a batch leaves: under each key the last poll of that key; other rows stay. */
  ghost predicate Written(manual: Table, data: seq<NewPollWeb>, t: Table) {
    && (forall i :: 0 <= i < |data| && LastOfKey(data, i) ==>
          Key(data[i]) in t && t[Key(data[i])] == ManualRow(RecordOf(data[i])))
    && (forall n :: !IsKey(data, n) ==> (n in t <==> n in manual) && (n in t ==> t[n] == manual[n]))
  }

  lemma WriteOne(manual: Table, data: seq<NewPollWeb>, p: NewPollWeb, t: Table)
    requires Written(manual, data, t)
    ensures Written(manual, data + [p], t[Key(p) := ManualRow(RecordOf(p))])
  {
    hide ManualRow, RecordOf, Key;
    var all := data + [p];
    var u := t[Key(p) := ManualRow(RecordOf(p))];
    forall i | 0 <= i < |all| && LastOfKey(all, i)
      ensures Key(all[i]) in u && u[Key(all[i])] == ManualRow(RecordOf(all[i]))
    {
      if i < |data| {
        assert all[|data|] == p && all[i] == data[i];
        forall j | i < j < |data| ensures Key(data[j]) != Key(data[i]) {
          assert all[j] == data[j];
        }
        assert LastOfKey(data, i);
      }
    }
    forall n | !IsKey(all, n) ensures !IsKey(data, n) && n != Key(p) {
      assert all[|data|] == p;
      forall i | 0 <= i < |data| ensures Key(data[i]) != n {
        assert all[i] == data[i];
      }
    }
  }

  /** An accepted batch can always be written. */
  lemma {:induction false} AcceptedRows(manual: Table, data: seq<NewPollWeb>)
    requires FirstError(data).None?
    ensures WithManual(manual, Records(data)).Some?
    ensures Written(manual, data, WithManual(manual, Records(data)).value)
  {
    hide ManualRow, VoteError, AnswersOf, PollIds, Written;
    if data == [] {
      WrittenNothing(manual);
    } else {
      var n := |data| - 1;
      AcceptedRows(manual, data[..n]);
      assert Records(data)[..n] == Records(data[..n]);
      WriteOne(manual, data[..n], data[n], WithManual(manual, Records(data[..n])).value);
      assert data == data[..n] + [data[n]];
    }
  }

  lemma WrittenNothing(manual: Table)
    ensures Written(manual, [], manual)
  {
  }

  lemma {:induction false} LastOfKeyExists(data: seq<NewPollWeb>, i: nat) returns (j: nat)
    requires i < |data|
    ensures i <= j < |data| && Key(data[j]) == Key(data[i]) && LastOfKey(data, j)
    decreases |data| - i
  {
    if LastOfKey(data, i) {
      j := i;
    } else {
      var k :| i < k < |data| && Key(data[k]) == Key(data[i]);
      j := LastOfKeyExists(data, k);
    }
  }

  /** Every poll of an accepted batch is stored with its own row if and only if polls of one key have equal
      rows. Distinct id texts, which is what is checked, do not ensure it. */
  lemma EveryPollStoredIff(manual: Table, data: seq<NewPollWeb>)
    requires FirstError(data).None?
    ensures var stored := WithManual(manual, Records(data));
            stored.Some? &&
            ((forall i :: 0 <= i < |data| ==>
                Key(data[i]) in stored.value && stored.value[Key(data[i])] == ManualRow(RecordOf(data[i])))
             <==>
             (forall i, j :: 0 <= i < j < |data| && Key(data[i]) == Key(data[j]) ==>
                ManualRow(RecordOf(data[i])) == ManualRow(RecordOf(data[j]))))
  {
    hide ManualRow, RecordOf, FirstError, Key, LastOfKey;
    AcceptedRows(manual, data);
    var t := WithManual(manual, Records(data)).value;
    if forall i, j :: 0 <= i < j < |data| && Key(data[i]) == Key(data[j]) ==>
         ManualRow(RecordOf(data[i])) == ManualRow(RecordOf(data[j])) {
      forall i | 0 <= i < |data|
        ensures Key(data[i]) in t && t[Key(data[i])] == ManualRow(RecordOf(data[i]))
      {
        var j := LastOfKeyExists(data, i);
      }
    }
  }

  /** "7" and "007" are different texts and one row: such a batch is accepted and its first poll is lost. */
  lemma LeadingZeroLosesAPoll(manual: Table)
    ensures var data := [NewPollWeb("7", "first", []), NewPollWeb("007", "second", [])];
            var stored := WithManual(manual, Records(data));
            && FirstError(data).None? && stored.Some?
            && 7 in stored.value && stored.value[7].title == "second"
            && (forall n :: n in stored.value && n != 7 ==> n in manual && stored.value[n] == manual[n])
  {
    var data := [NewPollWeb("7", "first", []), NewPollWeb("007", "second", [])];
    ValueOfSeven();
    assert KeyOf("7") == Some(7) && KeyOf("007") == Some(7);
    AcceptedIff(data);
    AcceptedRows(manual, data);
    assert Key(data[0]) == 7 && Key(data[1]) == 7;
    assert LastOfKey(data, 1);
    forall n | n != 7 ensures !IsKey(data, n) {
    }
  }

  lemma ValueOfSeven()
    ensures AllDigits("7") && AllDigits("007") && Value("7") == 7 && Value("007") == 7
  {
    assert "7"[..0] == "" && "007"[..2] == "00" && "00"[..1] == "0" && "0"[..0] == "";
    assert Value("0") == 0;
    assert Value("00") == 0;
  }

  /** The ids that print as 9223372036854775808 and 9223372036854775809. */
  const FIRST_BIG := Decimal(9223372036854775808)
  const NEXT_BIG := Decimal(9223372036854775809)

  lemma ValueOfBig()
    ensures Canonical(FIRST_BIG) && Value(FIRST_BIG) == INT64_LIMIT
    ensures Canonical(NEXT_BIG) && Value(NEXT_BIG) == INT64_LIMIT + 1
  {
  }

  /** 2^63 and 2^63 + 1 are canonical ids of different numbers and one row, because the column rounds them: the
      batch is accepted and its first poll is lost. */
  lemma BigIdsLoseAPoll(manual: Table)
    ensures var data := [NewPollWeb(FIRST_BIG, "first", []), NewPollWeb(NEXT_BIG, "second", [])];
            var stored := WithManual(manual, Records(data));
            && FirstError(data).None? && stored.Some?
            && INT64_LIMIT in stored.value && stored.value[INT64_LIMIT].title == "second"
            && (forall n :: n in stored.value && n != INT64_LIMIT ==> n in manual && stored.value[n] == manual[n])
  {
    var data := [NewPollWeb(FIRST_BIG, "first", []), NewPollWeb(NEXT_BIG, "second", [])];
    ValueOfBig();
    hide Value, Decimal;
    assert Rounded(INT64_LIMIT) == INT64_LIMIT && Rounded(INT64_LIMIT + 1) == INT64_LIMIT;
    assert KeyOf(FIRST_BIG) == Some(INT64_LIMIT) && KeyOf(NEXT_BIG) == Some(INT64_LIMIT);
    AcceptedIff(data);
    AcceptedRows(manual, data);
    assert Key(data[0]) == INT64_LIMIT && Key(data[1]) == INT64_LIMIT;
    assert LastOfKey(data, 1);
    forall n | n != INT64_LIMIT ensures !IsKey(data, n) {
    }
  }

  // ---------------------------------------------------------------- out through the exporter

  /** How the export writes a choice. */
  function ChoiceText(choice: int): string
    requires 0 <= choice < |CHOICES|
  {
    if choice == 0 then NO_VOTE else Decimal(choice)
  }

  lemma ChoicesClassify(c: int)
    requires 0 <= c < |CHOICES|
    ensures Classify(CHOICES[c]) == Choice(ChoiceText(c))
  {
    hide Classify;
    if c > 0 {
      assert CHOICES[c] == StarText(c);
      StarsAreTheirNumber(c, "");
    } else {
      AbstentionIsNoVote("");
    }
  }

  lemma SmallDecimals(c: nat)
    requires 1 <= c <= 5
    ensures Decimal(c) == Stars(c)
  {
  }

  lemma {:induction false} VotersOfAre(votes: seq<VoterWeb>, c: int)
    ensures forall v :: v in VotersOf(votes, c) <==> VoterWeb(v, c) in votes
  {
    if votes != [] {
      var n := |votes| - 1;
      assert votes == votes[..n] + [votes[n]];
      VotersOfAre(votes[..n], c);
    }
  }

  /** The ballot holds the votes for the first `k` choices, and nothing else. */
  ghost predicate Holds(b: Ballot, votes: seq<VoterWeb>, k: nat) {
    && (forall v :: v in b.votes <==> v in b.seen)
    && (forall v :: v in b.seen ==> exists c :: 0 <= c < k && VoterWeb(v, c) in votes)
    && (forall w :: w in votes && 0 <= w.choice < k && w.choice < |CHOICES| ==>
          w.id in b.votes && b.votes[w.id] == ChoiceText(w.choice))
  }

  lemma HoldsMore(b: Ballot, votes: seq<VoterWeb>, k: nat, voters: seq<Snowflake>)
    requires ValidVotes(votes) && k < |CHOICES| && Holds(b, votes, k)
    requires forall v :: v in voters <==> VoterWeb(v, k) in votes
    ensures Holds(CastAll(b, voters, ChoiceText(k)), votes, k + 1)
  {
    hide ChoiceText, ValidVotes, CastAll;
    CastAllIs(b, voters, ChoiceText(k));
    var d := CastAll(b, voters, ChoiceText(k));
    forall v | v in d.seen ensures exists c :: 0 <= c < k + 1 && VoterWeb(v, c) in votes {
      if v in voters {
        assert VoterWeb(v, k) in votes;
      } else {
        var c :| 0 <= c < k && VoterWeb(v, c) in votes;
      }
    }
    forall w | w in votes && 0 <= w.choice < k + 1 ensures w.id in d.votes && d.votes[w.id] == ChoiceText(w.choice) {
      assert w == VoterWeb(w.id, w.choice);
      if w.choice < k {
        OneVote(votes, w.id, w.choice, k);
      }
    }
  }

  lemma {:induction false} CountPrefix(votes: seq<VoterWeb>, k: nat)
    requires ValidVotes(votes) && k <= |CHOICES|
    ensures var b := Count(AnswersOf(votes)[..k]);
            b.rating && b.total == Numbered(votes, k) && Holds(b, votes, k)
  {
    hide Classify, CastAll, ValidVotes, ChoiceText, Holds;
    var answers := AnswersOf(votes);
    if k == 0 {
      HoldsNothing(votes);
    } else {
      CountPrefix(votes, k - 1);
      ChoicesClassify(k - 1);
      CountOneMore(answers, k);
      CastAllIs(Count(answers[..k - 1]), VotersOf(votes, k - 1), ChoiceText(k - 1));
      VotersOfAre(votes, k - 1);
      TextIsNoVote(k - 1);
      HoldsMore(Count(answers[..k - 1]), votes, k - 1, VotersOf(votes, k - 1));
    }
  }

  lemma HoldsNothing(votes: seq<VoterWeb>)
    ensures Holds(Ballot(map[], 0, {}, true), votes, 0)
  {
  }

  lemma TextIsNoVote(c: int)
    requires 0 <= c < |CHOICES|
    ensures ChoiceText(c) == NO_VOTE <==> c == 0
  {
    if c > 0 {
      SmallDecimals(c);
    }
  }

  lemma OneVote(votes: seq<VoterWeb>, v: Snowflake, c: int, d: int)
    requires ValidVotes(votes) && VoterWeb(v, c) in votes && c != d
    ensures VoterWeb(v, d) !in votes
  {
    var i :| 0 <= i < |votes| && votes[i] == VoterWeb(v, c);
    forall j | 0 <= j < |votes| ensures votes[j] != VoterWeb(v, d) {
      assert i == j || votes[i].id != votes[j].id;
    }
  }

  lemma CountOneMore(answers: seq<RecordAnswer>, k: nat)
    requires 0 < k <= |answers| && Count(answers[..k - 1]).rating && Classify(answers[k - 1].title).Choice?
    ensures Count(answers[..k]) ==
            CastAll(Count(answers[..k - 1]), answers[k - 1].voters, Classify(answers[k - 1].title).c)
  {
    assert answers[..k][..k - 1] == answers[..k - 1];
  }

  /** The numbered votes among the first `k` choices. */
  function Numbered(votes: seq<VoterWeb>, k: nat): nat {
    if k <= 1 then 0 else Numbered(votes, k - 1) + |VotersOf(votes, k - 1)|
  }

  function NonZero(votes: seq<VoterWeb>): nat {
    if votes == [] then 0
    else NonZero(votes[..|votes| - 1]) + (if votes[|votes| - 1].choice != 0 then 1 else 0)
  }

  lemma {:induction false} NumberedSnoc(votes: seq<VoterWeb>, k: nat)
    requires votes != []
    ensures Numbered(votes, k) ==
            Numbered(votes[..|votes| - 1], k) + (if 0 < votes[|votes| - 1].choice < k then 1 else 0)
  {
    if k > 1 {
      NumberedSnoc(votes, k - 1);
    }
  }

  lemma {:induction false} NoneNumbered(k: nat)
    ensures Numbered([], k) == 0
  {
    if k > 1 {
      NoneNumbered(k - 1);
    }
  }

  lemma {:induction false} NumberedIsNonZero(votes: seq<VoterWeb>)
    requires ValidVotes(votes)
    ensures Numbered(votes, |CHOICES|) == NonZero(votes)
  {
    if votes == [] {
      NoneNumbered(|CHOICES|);
    } else {
      NumberedIsNonZero(votes[..|votes| - 1]);
      NumberedSnoc(votes, |CHOICES|);
    }
  }

  /** The exporter reads a hand-entered poll as its votes say: a rating poll whose voters are the submitted
      ones, each with the text of the submitted choice, and whose total is the number of non-zero choices. */
  lemma {:induction false} ManualBallot(votes: seq<VoterWeb>)
    requires ValidVotes(votes)
    ensures var b := Count(AnswersOf(votes));
            && b.rating && b.total == NonZero(votes) && b.seen == VoterIds(votes) == b.votes.Keys
            && (forall i :: 0 <= i < |votes| ==> votes[i].id in b.votes && b.votes[votes[i].id] == ChoiceText(votes[i].choice))
  {
    hide Count, ChoiceText;
    CountPrefix(votes, |CHOICES|);
    NumberedIsNonZero(votes);
    assert AnswersOf(votes)[..|CHOICES|] == AnswersOf(votes);
    forall i | 0 <= i < |votes| ensures votes[i] in votes && votes[i].choice < |CHOICES| {
    }
  }
}
