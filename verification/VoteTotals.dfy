/** What the Total column counts. It is a running count of votes cast, while a cell holds a voter's last vote;
    the two agree exactly when no counted vote is cast over. */
module VoteTotals {
  import opened Decimals
  import opened Text
  import opened FinalizedStore
  import opened CsvExport
  import opened PageSplit

  datatype Cast = Cast(voter: Snowflake, choice: string)

  /** The votes of one answer, in the order the exporter meets them. */
  function AnswerCasts(voters: seq<Snowflake>, choice: string): (c: seq<Cast>)
    ensures |c| == |voters| && forall i :: 0 <= i < |c| ==> c[i] == Cast(voters[i], choice)
  {
    seq(|voters|, i requires 0 <= i < |voters| => Cast(voters[i], choice))
  }

  /** All votes of a poll. */
  function Casts(answers: seq<RecordAnswer>): seq<Cast> {
    if answers == [] then []
    else
      var a := answers[|answers| - 1];
      Casts(answers[..|answers| - 1]) + (if Classify(a.title).Choice? then AnswerCasts(a.voters, Classify(a.title).c) else [])
  }

  /** No vote for a number is followed by another vote of the same voter. */
  predicate NothingCastOver(casts: seq<Cast>) {
    forall i, j :: 0 <= i < j < |casts| && casts[i].voter == casts[j].voter ==> casts[i].choice == NO_VOTE
  }

  function Counted(votes: CsvExport.Votes): set<Snowflake> {
    set v | v in votes && votes[v] != NO_VOTE
  }

  function Replay(casts: seq<Cast>): Ballot {
    if casts == [] then Ballot(map[], 0, {}, true)
    else CastOne(Replay(casts[..|casts| - 1]), casts[|casts| - 1].voter, casts[|casts| - 1].choice)
  }

  lemma {:induction false} ReplayAnswer(casts: seq<Cast>, voters: seq<Snowflake>, choice: string)
    ensures Replay(casts + AnswerCasts(voters, choice)) == CastAll(Replay(casts), voters, choice)
  {
    var all := casts + AnswerCasts(voters, choice);
    if voters == [] {
      assert all == casts;
    } else {
      var n := |voters| - 1;
      ReplayAnswer(casts, voters[..n], choice);
      assert all[..|all| - 1] == casts + AnswerCasts(voters[..n], choice);
    }
  }

  lemma {:induction false} CountReplays(answers: seq<RecordAnswer>)
    requires Count(answers).rating
    ensures Count(answers) == Replay(Casts(answers))
  {
    if answers != [] {
      var n := |answers| - 1;
      var a := answers[n];
      CountReplays(answers[..n]);
      if Classify(a.title).Choice? {
        ReplayAnswer(Casts(answers[..n]), a.voters, Classify(a.title).c);
      } else {
        assert Casts(answers) == Casts(answers[..n]);
      }
    }
  }

  predicate WasCast(casts: seq<Cast>, voter: Snowflake, choice: string) {
    exists i :: 0 <= i < |casts| && casts[i] == Cast(voter, choice)
  }

  /** A voter's entry is one of the votes cast. */
  lemma {:induction false} ReplayOnlyCast(casts: seq<Cast>)
    ensures forall v :: v in Replay(casts).votes ==> WasCast(casts, v, Replay(casts).votes[v])
  {
    if casts != [] {
      var n := |casts| - 1;
      ReplayOnlyCast(casts[..n]);
      forall v | v in Replay(casts).votes ensures WasCast(casts, v, Replay(casts).votes[v]) {
        if v == casts[n].voter {
          assert casts[n] == Cast(v, Replay(casts).votes[v]);
        } else {
          assert v in Replay(casts[..n]).votes;
          assert WasCast(casts[..n], v, Replay(casts[..n]).votes[v]);
          var i :| 0 <= i < n && casts[..n][i] == Cast(v, Replay(casts[..n]).votes[v]);
          assert casts[i] == Cast(v, Replay(casts).votes[v]);
        }
      }
    }
  }

  /** A counted vote that nothing is cast over is the voter's entry. */
  lemma {:induction false} ReplayKeeps(casts: seq<Cast>, i: nat)
    requires NothingCastOver(casts) && i < |casts| && casts[i].choice != NO_VOTE
    ensures casts[i].voter in Replay(casts).votes && Replay(casts).votes[casts[i].voter] == casts[i].choice
  {
    var n := |casts| - 1;
    if i < n {
      assert casts[..n][i] == casts[i];
      ReplayKeeps(casts[..n], i);
    }
  }

  /** One more vote: the number of counted voters grows unless it was counted already. */
  lemma CountOne(votes: CsvExport.Votes, voter: Snowflake, choice: string)
    ensures |Counted(votes[voter := choice])| ==
            |Counted(votes)| + (if choice != NO_VOTE then 1 else 0) - (if voter in Counted(votes) then 1 else 0)
  {
    var rest := Counted(votes) - {voter};
    var after := Counted(votes[voter := choice]);
    if voter in Counted(votes) {
      assert Counted(votes) == rest + {voter};
    } else {
      assert Counted(votes) == rest;
    }
    forall v ensures v in after <==> v in rest || (v == voter && choice != NO_VOTE) {
    }
    if choice != NO_VOTE {
      assert after == rest + {voter};
    } else {
      assert after == rest;
    }
  }

  /** Whether the last vote casts one over. */
  predicate LastCastsOver(casts: seq<Cast>)
    requires casts != []
  {
    exists i :: 0 <= i < |casts| - 1 && casts[i].voter == casts[|casts| - 1].voter && casts[i].choice != NO_VOTE
  }

  lemma CastOverByLast(casts: seq<Cast>)
    requires casts != []
    ensures NothingCastOver(casts) <==> NothingCastOver(casts[..|casts| - 1]) && !LastCastsOver(casts)
  {
    var n := |casts| - 1;
    var before := casts[..n];
    if NothingCastOver(before) && !LastCastsOver(casts) {
      forall i, j | 0 <= i < j < |casts| && casts[i].voter == casts[j].voter ensures casts[i].choice == NO_VOTE {
        assert before[i] == casts[i];
        if j < n {
          assert before[j] == casts[j];
        }
      }
    }
    if NothingCastOver(casts) {
      forall i, j | 0 <= i < j < n && before[i].voter == before[j].voter ensures before[i].choice == NO_VOTE {
        assert before[i] == casts[i] && before[j] == casts[j];
      }
    }
  }

  lemma CastOverMeansCounted(casts: seq<Cast>)
    requires casts != [] && NothingCastOver(casts[..|casts| - 1])
    ensures casts[|casts| - 1].voter in Counted(Replay(casts[..|casts| - 1]).votes) <==> LastCastsOver(casts)
  {
    var n := |casts| - 1;
    var before := casts[..n];
    var votes := Replay(before).votes;
    ReplayOnlyCast(before);
    if LastCastsOver(casts) {
      var i :| 0 <= i < n && casts[i].voter == casts[n].voter && casts[i].choice != NO_VOTE;
      ReplayKeeps(before, i);
    }
    if casts[n].voter in Counted(votes) {
      assert WasCast(before, casts[n].voter, votes[casts[n].voter]);
      var i :| 0 <= i < n && before[i] == Cast(casts[n].voter, votes[casts[n].voter]);
      assert casts[i] == before[i];
    }
  }

  /** Never more voters with a number than counted votes, and equally many exactly when nothing is cast over. */
  lemma {:induction false} TotalExactly(casts: seq<Cast>)
    ensures var b := Replay(casts);
            |Counted(b.votes)| <= b.total && (b.total == |Counted(b.votes)| <==> NothingCastOver(casts))
  {
    hide Counted, NothingCastOver, LastCastsOver;
    if casts == [] {
      TotalOfNone();
    } else {
      var n := |casts| - 1;
      TotalExactly(casts[..n]);
      CountOne(Replay(casts[..n]).votes, casts[n].voter, casts[n].choice);
      CastOverByLast(casts);
      if NothingCastOver(casts[..n]) {
        CastOverMeansCounted(casts);
      }
    }
  }

  lemma TotalOfNone()
    ensures |Counted(map[])| == 0 && NothingCastOver([])
  {
    assert Counted(map[]) == {};
  }

  // ---------------------------------------------------------------- the row

  /** How many cells of a row hold a vote for a number. */
  function Numbers(cells: seq<string>): nat {
    if cells == [] then 0
    else Numbers(cells[..|cells| - 1]) + (if cells[|cells| - 1] != NO_VOTE then 1 else 0)
  }

  predicate DistinctVoters(voters: seq<Snowflake>) {
    forall i, j :: 0 <= i < j < |voters| ==> voters[i] != voters[j]
  }

  function CountedAmong(votes: CsvExport.Votes, voters: seq<Snowflake>): set<Snowflake> {
    (set v | v in voters) * Counted(votes)
  }

  lemma CountedAmongOneMore(votes: CsvExport.Votes, voters: seq<Snowflake>)
    requires voters != [] && DistinctVoters(voters)
    ensures var v := voters[|voters| - 1];
            |CountedAmong(votes, voters)| == |CountedAmong(votes, voters[..|voters| - 1])| + (if v in Counted(votes) then 1 else 0)
  {
    hide Counted;
    var n := |voters| - 1;
    assert voters == voters[..n] + [voters[n]];
    assert voters[n] !in voters[..n];
    if voters[n] in Counted(votes) {
      assert CountedAmong(votes, voters) == CountedAmong(votes, voters[..n]) + {voters[n]};
    } else {
      assert CountedAmong(votes, voters) == CountedAmong(votes, voters[..n]);
    }
  }

  lemma {:induction false} NumbersAreCounted(votes: CsvExport.Votes, voters: seq<Snowflake>)
    requires DistinctVoters(voters)
    ensures Numbers(VoteCells(votes, voters)) == |CountedAmong(votes, voters)|
  {
    hide CountedAmong;
    if voters == [] {
      assert CountedAmong(votes, []) == {} by {
        NoneAmong(votes);
      }
    } else {
      var cells, n := VoteCells(votes, voters), |voters| - 1;
      NumbersAreCounted(votes, voters[..n]);
      assert cells[..n] == VoteCells(votes, voters[..n]);
      CountedAmongOneMore(votes, voters);
    }
  }

  lemma NoneAmong(votes: CsvExport.Votes)
    ensures CountedAmong(votes, []) == {}
  {
  }

  lemma SortedIsDistinct(voters: set<Snowflake>)
    ensures DistinctVoters(Sorted(voters))
  {
    SortedIncreases(voters);
  }

  /** The Total printed in a poll's row is never less than the number of numbered cells of the row, and it is
      that number if and only if no numbered vote of the poll was cast over - in particular when every voter
      is in at most one answer. */
  lemma TotalOfRow(env: Env, recs: seq<FinalRecord>, i: nat)
    requires i < |recs| && Exported(recs[i]) && DistinctTitles(recs)
    ensures var voters := Sorted(Voters(recs));
            var p := PairOf(recs[i]);
            p.title in Mapped(recs)
            && var row := RowCells(env, p, Mapped(recs)[p.title], voters);
               && |row| == |Header(env, voters)|
               && Numbers(row[5..]) <= p.total
               && (row[4] == Decimal(Numbers(row[5..])) <==> NothingCastOver(Casts(recs[i].answers)))
  {
    hide Count, Voters, Mapped, Casts, Counted, Sorted, Numbers, VoteCells, Filtered, Replay, NothingCastOver, Decimal, DistinctTitles, HasTime, CountedAmong;
    var voters := Sorted(Voters(recs));
    var p, votes := PairOf(recs[i]), Count(recs[i].answers).votes;
    MappedIsOwn(recs, i);
    CountReplays(recs[i].answers);
    TotalExactly(Casts(recs[i].answers));
    SortedIsDistinct(Voters(recs));
    NumbersAreCounted(votes, voters);
    VotesAreChoices(recs[i].answers);
    SeenHasColumn(recs, recs[i]);
    CountedHaveColumns(votes, voters);
    var row := RowCells(env, p, votes, voters);
    assert row[5..] == VoteCells(votes, voters) && row[4] == Decimal(p.total);
    DecimalInjective(p.total, Numbers(row[5..]));
  }

  lemma CountedHaveColumns(votes: CsvExport.Votes, voters: seq<Snowflake>)
    requires forall v :: v in votes ==> v in voters
    ensures CountedAmong(votes, voters) == Counted(votes)
  {
  }

  lemma DecimalInjective(m: nat, n: nat)
    ensures Decimal(m) == Decimal(n) <==> m == n
  {
    assert Value(Decimal(m)) == m && Value(Decimal(n)) == n;
  }

  predicate OneAnswerEach(answers: seq<RecordAnswer>) {
    && (forall k, l, x, y :: 0 <= k < l < |answers| && 0 <= x < |answers[k].voters| && 0 <= y < |answers[l].voters| ==>
          answers[k].voters[x] != answers[l].voters[y])
    && (forall k, x, y :: 0 <= k < |answers| && 0 <= x < y < |answers[k].voters| ==> answers[k].voters[x] != answers[k].voters[y])
  }

  lemma {:induction false} CastsComeFrom(answers: seq<RecordAnswer>, i: nat) returns (k: nat, x: nat)
    requires i < |Casts(answers)|
    ensures k < |answers| && x < |answers[k].voters| && answers[k].voters[x] == Casts(answers)[i].voter
  {
    var n := |answers| - 1;
    var before := Casts(answers[..n]);
    if i < |before| {
      k, x := CastsComeFrom(answers[..n], i);
    } else {
      k, x := n, i - |before|;
    }
  }

  predicate VotersDiffer(casts: seq<Cast>) {
    forall i, j :: 0 <= i < j < |casts| ==> casts[i].voter != casts[j].voter
  }

  lemma DifferTogether(a: seq<Cast>, b: seq<Cast>)
    requires VotersDiffer(a) && VotersDiffer(b)
    requires forall i, j :: 0 <= i < |a| && 0 <= j < |b| ==> a[i].voter != b[j].voter
    ensures VotersDiffer(a + b)
  {
  }

  lemma {:induction false} VotersOnce(answers: seq<RecordAnswer>)
    requires OneAnswerEach(answers)
    ensures VotersDiffer(Casts(answers))
  {
    hide Classify, VotersDiffer;
    if answers == [] {
      NoneDiffer();
    } else {
      var n := |answers| - 1;
      VotersOnce(answers[..n]);
      var before := Casts(answers[..n]);
      if Classify(answers[n].title).Choice? {
        var more := AnswerCasts(answers[n].voters, Classify(answers[n].title).c);
        AnswerDiffers(answers[n].voters, Classify(answers[n].title).c);
        forall i, j | 0 <= i < |before| && 0 <= j < |more| ensures before[i].voter != more[j].voter {
          var k, x := CastsComeFrom(answers[..n], i);
          assert answers[..n][k] == answers[k];
        }
        DifferTogether(before, more);
      } else {
        assert Casts(answers) == before;
      }
    }
  }

  lemma NoneDiffer()
    ensures VotersDiffer([])
  {
  }

  lemma AnswerDiffers(voters: seq<Snowflake>, choice: string)
    requires DistinctVoters(voters)
    ensures VotersDiffer(AnswerCasts(voters, choice))
  {
  }

  /** A poll where every voter is in at most one answer casts nothing over. */
  lemma OneAnswerSuffices(answers: seq<RecordAnswer>)
    requires OneAnswerEach(answers)
    ensures NothingCastOver(Casts(answers))
  {
    VotersOnce(answers);
  }
}
