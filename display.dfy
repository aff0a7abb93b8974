/**
 The display object: the loaded corpus, the optional fixed time key and
 the minute last drawn, with one step of the refresh loop.

 The file system is a parameter: `read(key)` is the parsed content of the
 key's corpus file, or `None` when the file is missing or fails to load.
 The clock is a parameter of each step, and so is the index that
 `random.choice` would pick.
 */
module Display {
  import opened Corpus
  import opened Layout

  class QuoteDisplay {
    /** A key to show instead of the clock's, when not empty. */
    var fixedTime: string
    /** The minute last drawn; -1 before the first frame. */
    var currentMin: int
    /** For each key whose file loaded, the records it holds. */
    var quoteData: map<string, seq<QuoteRecord>>

    /** Only keys of the `HH_MM` shape are ever loaded. */
    ghost predicate Valid()
      reads this
    {
      forall k :: k in quoteData ==> IsTimeKey(k)
    }

    /** `quoteData` holds exactly the files that loaded, under their keys. */
    ghost predicate LoadedFrom(read: string -> Option<seq<QuoteRecord>>)
      reads this
    {
      && (forall k :: k in quoteData <==> IsTimeKey(k) && read(k).Some?)
      && (forall k :: k in quoteData ==> quoteData[k] == read(k).value)
    }

    /** `__init__`: remembers the fixed time, marks no minute as drawn and
        loads the corpus.  (The refresh loop it then enters is `Step`.) */
    constructor (fixedTime: string, read: string -> Option<seq<QuoteRecord>>)
      ensures Valid() && LoadedFrom(read)
      ensures this.fixedTime == fixedTime && currentMin == -1
    {
      this.fixedTime := fixedTime;
      currentMin := -1;
      quoteData := map[];
      new;
      LoadData(read);
    }

    /** `loadData`: tries the file of every one of the 1440 keys, in clock
        order, and keeps those that load. */
    method LoadData(read: string -> Option<seq<QuoteRecord>>)
      modifies this`quoteData
      ensures Valid() && LoadedFrom(read)
    {
      quoteData := map[];
      for hours := 0 to HoursPerDay
        invariant forall k :: k in quoteData <==>
          IsTimeKey(k) && KeyIndex(k) < hours * MinutesPerHour && read(k).Some?
        invariant forall k :: k in quoteData ==> quoteData[k] == read(k).value
      {
        for mins := 0 to MinutesPerHour
          invariant forall k :: k in quoteData <==>
            IsTimeKey(k) && KeyIndex(k) < hours * MinutesPerHour + mins && read(k).Some?
          invariant forall k :: k in quoteData ==> quoteData[k] == read(k).value
        {
          var timeStr := TimeKey(hours, mins);
          TimeKeyParses(hours, mins);
          KeyOfIndex(timeStr);
          match read(timeStr)
          case Some(records) =>
            quoteData := quoteData[timeStr := records];
          case None =>
        }
      }
    }

    /** `get_quote`: a record of the key's list (the one at `pick`), or the
        placeholder for a key that has no list. */
    function GetQuote(timeStr: string, pick: nat): (q: QuoteRecord)
      reads this
      requires timeStr in quoteData ==> pick < |quoteData[timeStr]|
      ensures timeStr in quoteData ==> q in quoteData[timeStr]
      ensures timeStr !in quoteData ==> q == NoQuote(timeStr)
    {
      if timeStr in quoteData then quoteData[timeStr][pick] else NoQuote(timeStr)
    }

    /** Every record of a key's list is what some pick selects. */
    lemma EveryQuoteSelectable(timeStr: string, r: QuoteRecord)
      requires timeStr in quoteData && r in quoteData[timeStr]
      ensures exists pick: nat :: pick < |quoteData[timeStr]| && GetQuote(timeStr, pick) == r
    {
      var pick :| 0 <= pick < |quoteData[timeStr]| && quoteData[timeStr][pick] == r;
      assert GetQuote(timeStr, pick) == r;
    }

    /** The key a step shows: the fixed time if one is set, else the clock's. */
    function ShownKey(hour: int, minute: int): string
      reads this
      requires 0 <= hour < HoursPerDay && 0 <= minute < MinutesPerHour
    {
      if fixedTime == "" then TimeKey(hour, minute) else fixedTime
    }

    /** One pass of the refresh loop at clock time `hour:minute`: nothing is
        drawn while the minute is the one last drawn; otherwise the minute
        is recorded and the shown key's quote is laid out. */
    method Step(hour: int, minute: int, pick: nat, m: Metrics) returns (frame: Option<Frame>)
      requires Valid()
      requires 0 <= hour < HoursPerDay && 0 <= minute < MinutesPerHour
      requires minute != currentMin && ShownKey(hour, minute) in quoteData ==>
        pick < |quoteData[ShownKey(hour, minute)]|
      modifies this`currentMin
      ensures Valid() && currentMin == minute
      ensures fixedTime == old(fixedTime) && quoteData == old(quoteData)
      ensures frame.Some? <==> minute != old(currentMin)
      ensures frame.Some? ==> IsLayout(frame.value, GetQuote(ShownKey(hour, minute), pick), m)
    {
      frame := None;
      if minute != currentMin {
        currentMin := minute;
        var quoteInfo := GetQuote(ShownKey(hour, minute), pick);
        var f := Render(quoteInfo, m);
        frame := Some(f);
      }
    }
  }

  /** Every key of the key shape is the key the loader builds at its index. */
  lemma KeyOfIndex(timeStr: string)
    requires IsTimeKey(timeStr)
    ensures forall k :: IsTimeKey(k) && KeyIndex(k) == KeyIndex(timeStr) ==> k == timeStr
  {
    forall k | IsTimeKey(k) && KeyIndex(k) == KeyIndex(timeStr)
      ensures k == timeStr
    {
      TimeKeyOfShape(k);
      TimeKeyOfShape(timeStr);
    }
  }

  /** Start-up: a new display draws on its first step, whatever the minute. */
  method Start(fixedTime: string, read: string -> Option<seq<QuoteRecord>>,
               hour: int, minute: int, pick: nat, m: Metrics)
    returns (frame: Option<Frame>)
    requires 0 <= hour < HoursPerDay && 0 <= minute < MinutesPerHour
    requires var key := if fixedTime == "" then TimeKey(hour, minute) else fixedTime;
      IsTimeKey(key) && read(key).Some? ==> pick < |read(key).value|
    ensures frame.Some?
  {
    var display := new QuoteDisplay(fixedTime, read);
    frame := display.Step(hour, minute, pick, m);
  }
}
