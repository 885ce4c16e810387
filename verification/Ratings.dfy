/** What the exporter reads in an answer's title and in a poll's answers, told without the exporter's own tests. */
module Ratings {
  import opened Decimals
  import opened Text
  import opened FinalizedStore
  import opened CsvExport

  function StarText(k: nat): (s: string)
    ensures |s| == k && forall i :: 0 <= i < k ==> s[i] == STAR
  {
    seq(k, _ => STAR)
  }

  function Commented(title: string, comment: string): string {
    title + " (" + comment + ")"
  }

  // ---------------------------------------------------------------- titles

  lemma {:induction false} LeadingOf(k: nat, rest: string)
    requires rest == "" || rest[0] != STAR
    ensures LeadingStars(StarText(k) + rest) == k && (StarText(k) + rest)[k..] == rest
  {
    var s := StarText(k) + rest;
    assert s[k..] == rest;
    if k > 0 {
      assert s[1..] == StarText(k - 1) + rest;
      LeadingOf(k - 1, rest);
    } else {
      assert s == rest;
    }
  }

  lemma CommentIs(comment: string)
    requires Without(comment, '\n')
    ensures IsComment(" (" + comment + ")")
  {
    var s := " (" + comment + ")";
    assert s[2..|s| - 1] == comment;
  }

  lemma NumberOfStars(k: nat)
    requires 1 <= k <= 5
    ensures Stars(k) == Decimal(k)
  {
  }

  /** One to five stars, bare or with any comment of one line, are the number of the stars. */
  lemma StarsAreTheirNumber(k: nat, comment: string)
    requires 1 <= k <= 5 && Without(comment, '\n')
    ensures Classify(StarText(k)) == Choice(Decimal(k))
    ensures Classify(Commented(StarText(k), comment)) == Choice(Decimal(k))
  {
    hide LeadingStars, IsComment, Decimal;
    NumberOfStars(k);
    CommentIs(comment);
    LeadingOf(k, "");
    assert StarText(k) + "" == StarText(k);
    LeadingOf(k, " (" + comment + ")");
    assert Commented(StarText(k), comment) == StarText(k) + (" (" + comment + ")");
  }

  /** More stars are a rating without a number: their votes are not counted, and the poll still is one. */
  lemma MoreStarsAreUnmapped(k: nat, comment: string)
    requires k > 5 && Without(comment, '\n')
    ensures Classify(StarText(k)) == Unmapped && Classify(Commented(StarText(k), comment)) == Unmapped
  {
    hide LeadingStars, IsComment;
    CommentIs(comment);
    LeadingOf(k, "");
    assert StarText(k) + "" == StarText(k);
    LeadingOf(k, " (" + comment + ")");
    assert Commented(StarText(k), comment) == StarText(k) + (" (" + comment + ")");
  }

  /** "N/A", bare or commented, is an abstention. */
  lemma AbstentionIsNoVote(comment: string)
    requires Without(comment, '\n')
    ensures Classify("N/A") == Choice("N/A") && Classify(Commented("N/A", comment)) == Choice("N/A")
  {
    CommentIs(comment);
    var t := Commented("N/A", comment);
    assert t[..3] == "N/A" && t[3..] == " (" + comment + ")";
    assert "N/A"[..3] == "N/A" && "N/A"[3..] == "";
  }

  /** One of the two bare forms. */
  ghost predicate IsScale(title: string) {
    title == "N/A" || exists k: nat :: k >= 1 && title == StarText(k)
  }

  ghost predicate IsRatingTitle(title: string) {
    IsScale(title) || exists bare, comment :: IsScale(bare) && Without(comment, '\n') && title == Commented(bare, comment)
  }

  lemma CommentOf(s: string) returns (comment: string)
    requires IsComment(s)
    ensures Without(comment, '\n') && s == " (" + comment + ")"
  {
    comment := s[2..|s| - 1];
    assert s == [s[0]] + [s[1]] + comment + [s[|s| - 1]];
  }

  lemma BareAndComment(title: string) returns (bare: string, rest: string)
    requires Classify(title) != NotRating
    ensures title == bare + rest && IsScale(bare) && (rest == "" || IsComment(rest))
  {
    hide IsComment;
    var k := LeadingStars(title);
    bare, rest := if k > 0 then title[..k] else title[..3], if k > 0 then title[k..] else title[3..];
    assert k > 0 ==> bare == StarText(k);
  }

  lemma RatingsHaveTheForm(title: string)
    requires Classify(title) != NotRating
    ensures IsRatingTitle(title)
  {
    var bare, rest := BareAndComment(title);
    hide Classify, IsScale;
    if rest == "" {
      assert title == bare;
    } else {
      var comment := CommentOf(rest);
      hide IsComment;
      assert title == Commented(bare, comment);
    }
  }

  /** Every other title makes the poll no rating. */
  lemma OtherTitlesAreNotRatings(title: string)
    ensures Classify(title) == NotRating <==> !IsRatingTitle(title)
  {
    if Classify(title) != NotRating {
      RatingsHaveTheForm(title);
    }
    hide Classify, IsScale;
    if IsScale(title) {
      ScaleIsRating(title, "");
    } else if IsRatingTitle(title) {
      var bare, comment :| IsScale(bare) && Without(comment, '\n') && title == Commented(bare, comment);
      ScaleIsRating(bare, comment);
    }
  }

  /** A comment does not change what a title means. */
  lemma ScaleIsRating(title: string, comment: string)
    requires IsScale(title) && Without(comment, '\n')
    ensures Classify(title) != NotRating && Classify(Commented(title, comment)) == Classify(title)
  {
    hide Classify;
    if title == "N/A" {
      AbstentionIsNoVote(comment);
    } else {
      var k: nat :| k >= 1 && title == StarText(k);
      if k <= 5 {
        StarsAreTheirNumber(k, comment);
      } else {
        MoreStarsAreUnmapped(k, comment);
      }
    }
  }

  // ---------------------------------------------------------------- polls

  /** The same answers, some with comments. */
  ghost predicate SameButComments(a: seq<RecordAnswer>, b: seq<RecordAnswer>) {
    && |a| == |b|
    && forall i :: 0 <= i < |a| ==>
         && a[i].voters == b[i].voters
         && (a[i].title == b[i].title
             || (IsScale(a[i].title) && exists c :: Without(c, '\n') && b[i].title == Commented(a[i].title, c)))
  }

  /** A poll counts the same with and without comments on its answers. */
  lemma {:induction false} CommentsDoNotCount(a: seq<RecordAnswer>, b: seq<RecordAnswer>)
    requires SameButComments(a, b)
    ensures Count(a) == Count(b)
  {
    hide Classify, IsScale;
    if a != [] {
      var n := |a| - 1;
      CommentsDoNotCount(a[..n], b[..n]);
      if a[n].title != b[n].title {
        var c :| Without(c, '\n') && b[n].title == Commented(a[n].title, c);
        ScaleIsRating(a[n].title, c);
      }
    }
  }

  /** The i-th answer is read: no earlier one makes the poll no rating, and neither does it. */
  predicate IsRead(answers: seq<RecordAnswer>, i: nat)
    requires i < |answers|
  {
    forall j :: 0 <= j <= i ==> Classify(answers[j].title) != NotRating
  }

  /** The voters the i-th answer counts. */
  predicate Counts(answers: seq<RecordAnswer>, i: nat, v: Snowflake)
    requires i < |answers|
  {
    IsRead(answers, i) && Classify(answers[i].title).Choice? && v in answers[i].voters
  }

  predicate CountsLast(answers: seq<RecordAnswer>, i: nat, v: Snowflake)
    requires i < |answers|
  {
    Counts(answers, i, v) && forall j :: i < j < |answers| ==> !Counts(answers, j, v)
  }

  lemma {:induction false} CastAllIs(b: Ballot, voters: seq<Snowflake>, c: string)
    ensures var d := CastAll(b, voters, c);
            && d.rating == b.rating && d.seen == b.seen + (set v | v in voters)
            && d.total == b.total + (if c == "N/A" then 0 else |voters|)
            && (forall v :: v in d.votes <==> v in b.votes || v in voters)
            && (forall v :: v in d.votes ==> d.votes[v] == if v in voters then c else b.votes[v])
  {
    if voters != [] {
      var n := |voters| - 1;
      assert voters == voters[..n] + [voters[n]];
      CastAllIs(b, voters[..n], c);
    }
  }

  predicate AllRead(answers: seq<RecordAnswer>) {
    forall j :: 0 <= j < |answers| ==> Classify(answers[j].title) != NotRating
  }

  lemma LastRead(answers: seq<RecordAnswer>)
    requires answers != []
    ensures var n := |answers| - 1;
            && (AllRead(answers) <==> AllRead(answers[..n]) && Classify(answers[n].title) != NotRating)
            && (IsRead(answers, n) <==> AllRead(answers))
            && (forall i, v :: 0 <= i < n ==> (Counts(answers, i, v) <==> Counts(answers[..n], i, v)))
  {
    hide Classify;
    var n := |answers| - 1;
    forall i, v | 0 <= i < n ensures Counts(answers, i, v) <==> Counts(answers[..n], i, v) {
      assert forall j :: 0 <= j <= i ==> answers[..n][j] == answers[j];
    }
  }

  /** A poll is a rating exactly when all its titles are. */
  lemma {:induction false} RatingIs(answers: seq<RecordAnswer>)
    ensures Count(answers).rating <==> AllRead(answers)
  {
    hide Classify, AllRead;
    if answers == [] {
      assert AllRead([]) by { NothingToRead(); }
    } else {
      RatingIs(answers[..|answers| - 1]);
      LastRead(answers);
      OneMoreAnswer(answers);
    }
  }

  lemma NothingToRead()
    ensures AllRead([])
  {
  }

  predicate IsCounted(answers: seq<RecordAnswer>, v: Snowflake) {
    exists i :: 0 <= i < |answers| && Counts(answers, i, v)
  }

  lemma OneMoreCounted(answers: seq<RecordAnswer>, v: Snowflake)
    requires answers != []
    ensures var n := |answers| - 1; IsCounted(answers, v) <==> IsCounted(answers[..n], v) || Counts(answers, n, v)
  {
    hide Counts;
    LastRead(answers);
  }

  lemma LastCounts(answers: seq<RecordAnswer>, v: Snowflake)
    requires answers != []
    ensures var n := |answers| - 1;
            Counts(answers, n, v) <==>
            Count(answers[..n]).rating && Classify(answers[n].title).Choice? && v in answers[n].voters
  {
    hide Classify;
    RatingIs(answers[..|answers| - 1]);
    LastRead(answers);
  }

  /** A voter is met exactly when some counting answer lists it, and it then has a vote. */
  lemma {:induction false} SeenIs(answers: seq<RecordAnswer>, v: Snowflake)
    ensures v in Count(answers).seen <==> IsCounted(answers, v)
    ensures v in Count(answers).votes <==> IsCounted(answers, v)
  {
    if answers != [] {
      hide Classify, IsCounted, Counts;
      SeenIs(answers[..|answers| - 1], v);
      OneMoreCounted(answers, v);
      LastCounts(answers, v);
      OneMoreAnswer(answers);
    }
  }

  /** The columns: every voter met in a poll whose id is a snowflake, also in one that turns out to be no
      rating. */
  lemma {:induction false} VotersAre(recs: seq<FinalRecord>, v: Snowflake)
    ensures v in Voters(recs) <==>
            exists i :: 0 <= i < |recs| && ParseUint(recs[i].id).Some? && IsCounted(recs[i].answers, v)
  {
    hide Count, IsCounted, ParseUint;
    if recs != [] {
      var n := |recs| - 1;
      VotersAre(recs[..n], v);
      SeenIs(recs[n].answers, v);
      assert forall i :: 0 <= i < n ==> recs[..n][i] == recs[i];
    }
  }

  /** Its vote is the choice of the last answer that counts it. */
  lemma {:induction false} VoteIs(answers: seq<RecordAnswer>, i: nat, v: Snowflake)
    requires i < |answers| && CountsLast(answers, i, v)
    ensures v in Count(answers).votes && Choice(Count(answers).votes[v]) == Classify(answers[i].title)
  {
    hide Classify;
    var n := |answers| - 1;
    LastCounts(answers, v);
    OneMoreAnswer(answers);
    if i < n {
      LastRead(answers);
      VoteIs(answers[..n], i, v);
    }
  }

  lemma OneMoreAnswer(answers: seq<RecordAnswer>)
    requires answers != []
    ensures var n := |answers| - 1;
            var before, b := Count(answers[..n]), Count(answers);
            && (b.rating <==> before.rating && Classify(answers[n].title) != NotRating)
            && (if before.rating && Classify(answers[n].title).Choice? then
                  && b.seen == before.seen + (set v | v in answers[n].voters)
                  && (forall v :: v in b.votes <==> v in before.votes || v in answers[n].voters)
                  && (forall v :: v in b.votes ==>
                        b.votes[v] == if v in answers[n].voters then Classify(answers[n].title).c else before.votes[v])
                else b.seen == before.seen && b.votes == before.votes)
  {
    hide Classify;
    var n := |answers| - 1;
    var before := Count(answers[..n]);
    if before.rating && Classify(answers[n].title).Choice? {
      CastAllIs(before, answers[n].voters, Classify(answers[n].title).c);
    }
  }

  /** The votes for a number that are counted. */
  function NumberedVotes(answers: seq<RecordAnswer>): nat {
    if answers == [] then 0
    else
      var last := answers[|answers| - 1];
      NumberedVotes(answers[..|answers| - 1])
      + (if Classify(last.title).Choice? && Classify(last.title) != Choice("N/A") then |last.voters| else 0)
  }

  /** The total of a rating is the number of its votes for a number, and that of any other poll is zero. */
  lemma {:induction false} TotalIs(answers: seq<RecordAnswer>)
    ensures Count(answers).total == if AllRead(answers) then NumberedVotes(answers) else 0
  {
    if answers != [] {
      var n := |answers| - 1;
      var before := Count(answers[..n]);
      TotalIs(answers[..n]);
      RatingIs(answers[..n]);
      LastRead(answers);
      AbstentionIsNoVote("");
      if before.rating && Classify(answers[n].title).Choice? {
        CastAllIs(before, answers[n].voters, Classify(answers[n].title).c);
      }
    }
  }

  // ---------------------------------------------------------------- topics, names and times

  /** Stripping removes commas and nothing else. */
  lemma {:induction false} FilteredKeepsRest(a: string, b: string)
    requires Without(a, ',')
    ensures Filtered(a) == a && Filtered(a + "," + b) == a + Filtered(b)
  {
    if a == "" {
      assert a + "," + b == "," + b;
      assert ("," + b)[1..] == b;
    } else {
      assert (a + "," + b)[1..] == a[1..] + "," + b;
      FilteredKeepsRest(a[1..], b);
      assert a == [a[0]] + a[1..];
    }
  }

  /** The milliseconds of a snowflake are in its upper 42 bits: made for a moment - whatever its lower bits are -
      it reads back as the second of that moment. */
  lemma SnowflakeKeepsItsSecond(ms: nat, low: nat)
    requires ms >= 1420070400000 && low < 0x40_0000
    ensures Seconds((ms - 1420070400000) * 0x40_0000 + low) == ms / 1000
  {
  }

  /** Exported polls stand by the second they were made. */
  lemma ExportIsByTime(recs: seq<FinalRecord>, env: Env, order: seq<Pair>, text: string)
    requires IsExportIn(recs, env, order, text)
    ensures forall i, j :: 0 <= i < j < |order| ==> order[i].time <= order[j].time
  {
    hide RowsFor;
    forall i, j | 0 <= i < j < |order| ensures order[i].time <= order[j].time {
      assert TimeOf(order[i]) <= TimeOf(order[j]);
    }
  }

  /** A voter's column is the alias, if there is one and it is not "?", and the id otherwise. */
  lemma ColumnIsAlias(env: Env, voters: seq<Snowflake>, i: nat)
    requires i < |voters|
    ensures |Header(env, voters)| == 5 + |voters|
    ensures Header(env, voters)[..5] == ["ID", "Date", "Active", "Topic", "Total"]
    ensures voters[i] in env.aliases && env.aliases[voters[i]] != "?" ==> Header(env, voters)[5 + i] == env.aliases[voters[i]]
    ensures voters[i] !in env.aliases || env.aliases[voters[i]] == "?" ==> Header(env, voters)[5 + i] == voters[i]
  {
  }
}
