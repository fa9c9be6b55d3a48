/**
 * The play-history file: an append-only list of survival times, one per
 * finished game. Writing appends one record; the high-score and game-count
 * readers scan the records from the start and stop at the first one that
 * does not parse as a number (a missing file reads as an empty one).
 */
module PlayHistory {

  /** One extraction from the file: a number, or a token the stream could not read. */
  datatype Entry = Value(time: real) | Unreadable

  /** The values a reader extracts: every entry up to, not including, the first unreadable one. */
  function ReadValues(entries: seq<Entry>): (vs: seq<real>)
    ensures |vs| <= |entries|
    ensures forall i :: 0 <= i < |vs| ==> entries[i] == Value(vs[i])
    ensures |vs| == |entries| || entries[|vs|].Unreadable?
  {
    if entries == [] || entries[0].Unreadable? then []
    else [entries[0].time] + ReadValues(entries[1..])
  }

  /** The running maximum of `vs`, starting from 0: a value replaces it only when strictly larger. */
  function MaxFromZero(vs: seq<real>): (m: real)
    ensures 0.0 <= m
    ensures forall i :: 0 <= i < |vs| ==> vs[i] <= m
    ensures m == 0.0 || m in vs
  {
    if vs == [] then 0.0
    else
      var m0 := MaxFromZero(vs[..|vs| - 1]);
      if m0 < vs[|vs| - 1] then vs[|vs| - 1] else m0
  }

  /** The high score a reader reports for a history. */
  function HighScoreOf(entries: seq<Entry>): real {
    MaxFromZero(ReadValues(entries))
  }

  /** The number of games a reader reports for a history. */
  function GameCountOf(entries: seq<Entry>): nat {
    |ReadValues(entries)|
  }

  /** The history is read to its end: no entry stops the readers early. */
  predicate AllReadable(entries: seq<Entry>) {
    forall i :: 0 <= i < |entries| ==> entries[i].Value?
  }

  /**
   * Appending a record makes it the last value read when every earlier
   * entry is readable, and is invisible to the readers otherwise.
   */
  lemma {:induction false} ReadValuesAppend(entries: seq<Entry>, t: real)
    ensures AllReadable(entries) ==> ReadValues(entries + [Value(t)]) == ReadValues(entries) + [t]
    ensures !AllReadable(entries) ==> ReadValues(entries + [Value(t)]) == ReadValues(entries)
  {
    if entries == [] {
      assert ReadValues([Value(t)]) == [t] + ReadValues([]);
    } else {
      assert (entries + [Value(t)])[1..] == entries[1..] + [Value(t)];
      ReadValuesAppend(entries[1..], t);
      if entries[0].Value? {
        assert AllReadable(entries) <==> AllReadable(entries[1..]) by {
          forall i | 0 <= i < |entries[1..]| ensures entries[1..][i] == entries[i + 1] {}
        }
      }
    }
  }

  /** After a write the high score is the larger of the old one and the new time, unless an unreadable entry hides it. */
  lemma HighScoreAfterWrite(entries: seq<Entry>, t: real)
    ensures AllReadable(entries) ==>
      HighScoreOf(entries + [Value(t)]) == if HighScoreOf(entries) < t then t else HighScoreOf(entries)
    ensures !AllReadable(entries) ==> HighScoreOf(entries + [Value(t)]) == HighScoreOf(entries)
  {
    ReadValuesAppend(entries, t);
    var vs := ReadValues(entries);
    assert (vs + [t])[..|vs|] == vs;
  }

  /** After a write the game count rises by one, unless an unreadable entry hides the new record. */
  lemma GameCountAfterWrite(entries: seq<Entry>, t: real)
    ensures AllReadable(entries) ==> GameCountOf(entries + [Value(t)]) == GameCountOf(entries) + 1
    ensures !AllReadable(entries) ==> GameCountOf(entries + [Value(t)]) == GameCountOf(entries)
  {
    ReadValuesAppend(entries, t);
  }

  /** A history that is empty, or whose first record does not parse, has high score 0 and no games. */
  lemma EmptyHistoryReadsZero(entries: seq<Entry>)
    requires entries == [] || entries[0].Unreadable?
    ensures HighScoreOf(entries) == 0.0 && GameCountOf(entries) == 0
  {
  }

  /** A history whose readable values are all negative has high score 0. */
  lemma NegativeHistoryReadsZero(entries: seq<Entry>)
    requires forall i :: 0 <= i < |ReadValues(entries)| ==> ReadValues(entries)[i] < 0.0
    ensures HighScoreOf(entries) == 0.0
  {
  }

  /** Whatever follows an unreadable record is never read. */
  lemma {:induction false} ReadIgnoresTail(entries: seq<Entry>, rest: seq<Entry>)
    ensures ReadValues(entries + [Unreadable] + rest) == ReadValues(entries + [Unreadable])
    ensures HighScoreOf(entries + [Unreadable] + rest) == HighScoreOf(entries + [Unreadable])
    ensures GameCountOf(entries + [Unreadable] + rest) == GameCountOf(entries + [Unreadable])
  {
    if entries != [] {
      assert (entries + [Unreadable] + rest)[1..] == entries[1..] + [Unreadable] + rest;
      assert (entries + [Unreadable])[1..] == entries[1..] + [Unreadable];
      ReadIgnoresTail(entries[1..], rest);
    }
  }

  /** The history file "playerTimeFile.txt", as the list of entries it holds. */
  class HistoryFile {
    var entries: seq<Entry>

    /** A history that does not exist yet reads like an empty one. */
    constructor ()
      ensures entries == []
    {
      entries := [];
    }

    /** Appends the survival time `t` as one new record; earlier records are untouched. */
    method WriteTime(t: real)
      modifies this
      ensures entries == old(entries) + [Value(t)]
      ensures AllReadable(old(entries)) ==> GameCountOf(entries) == GameCountOf(old(entries)) + 1
      ensures AllReadable(old(entries)) ==>
        HighScoreOf(entries) == if HighScoreOf(old(entries)) < t then t else HighScoreOf(old(entries))
    {
      GameCountAfterWrite(entries, t);
      HighScoreAfterWrite(entries, t);
      entries := entries + [Value(t)];
    }

    /** Scans the records, keeping the largest value read so far, starting from 0. */
    method PlayerHighScore() returns (highScore: real)
      ensures highScore == HighScoreOf(entries)
      ensures 0.0 <= highScore
      ensures forall v :: v in ReadValues(entries) ==> v <= highScore
      ensures highScore == 0.0 || highScore in ReadValues(entries)
    {
      highScore := 0.0;
      var i := 0;
      while i < |entries| && entries[i].Value?
        invariant 0 <= i <= |entries|
        invariant forall k :: 0 <= k < i ==> entries[k].Value?
        invariant ReadValues(entries)[..i] == ReadValues(entries[..i])
        invariant highScore == MaxFromZero(ReadValues(entries[..i]))
      {
        ghost var seen := ReadValues(entries[..i]);
        var score := entries[i].time;
        if highScore < score {
          highScore := score;
        }
        i := i + 1;
        ReadPrefixStep(entries, i);
        assert ReadValues(entries[..i]) == seen + [score];
        assert (seen + [score])[..|seen|] == seen;
      }
      ReadPrefixDone(entries, i);
    }

    /** Counts the records read before the first unreadable one. */
    method GameCount() returns (counter: nat)
      ensures counter == GameCountOf(entries)
      ensures counter <= |entries|
      ensures forall k :: 0 <= k < counter ==> entries[k].Value?
      ensures counter == |entries| || entries[counter].Unreadable?
    {
      counter := 0;
      while counter < |entries| && entries[counter].Value?
        invariant 0 <= counter <= |entries|
        invariant forall k :: 0 <= k < counter ==> entries[k].Value?
      {
        counter := counter + 1;
      }
      ReadPrefixDone(entries, counter);
    }
  }

  /** Reading a readable prefix one entry longer reads one value more. */
  lemma ReadPrefixStep(entries: seq<Entry>, i: nat)
    requires 0 < i <= |entries|
    requires forall k :: 0 <= k < i ==> entries[k].Value?
    ensures ReadValues(entries[..i]) == ReadValues(entries[..i - 1]) + [entries[i - 1].time]
  {
    assert entries[..i] == entries[..i - 1] + [Value(entries[i - 1].time)];
    ReadValuesAppend(entries[..i - 1], entries[i - 1].time);
  }

  /** A reader that stops at `i` has read exactly the values of the first `i` entries. */
  lemma ReadPrefixDone(entries: seq<Entry>, i: nat)
    requires i <= |entries|
    requires forall k :: 0 <= k < i ==> entries[k].Value?
    requires i == |entries| || entries[i].Unreadable?
    ensures ReadValues(entries) == ReadValues(entries[..i])
    ensures |ReadValues(entries)| == i
  {
    var vs := ReadValues(entries);
    var ws := ReadValues(entries[..i]);
    assert vs == ws by {
      forall k | 0 <= k < i ensures vs[k] == ws[k] {
        assert entries[..i][k] == entries[k];
      }
    }
  }
}
