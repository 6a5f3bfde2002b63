/** `04_common/01/main.py`: the mission log `timestamp,event,message` is read
    into `[timestamp, message]` items, ordered newest first, turned into a
    dictionary and searched for danger keywords. */
module MissionLog {
  import opened Wrappers
  import opened Text
  import opened Seqs
  import opened StableSort

  /** One parsed log line: `[timestamp.strip(), message.strip()]`. */
  datatype LogItem = LogItem(timestamp: string, message: string)

  const DangerKeywords: set<string> := {"unstable", "explosion", "Max-Q", "ignition", "Oxygen"}

  predicate StartsWith(s: string, prefix: string) {
    |prefix| <= |s| && s[..|prefix|] == prefix
  }

  /** A header line: starts with `timestamp,` in any letter case. */
  predicate IsHeader(line: string) {
    StartsWith(Lower(line), "timestamp,")
  }

  /** `[line for line in contents.splitlines() if line.strip()]`, with lines
      ending at '\n'. */
  function NonBlankLines(contents: string): seq<string> {
    Filter(SplitOn(contents, '\n'), IsNonBlank)
  }

  /** `logs[start_idx:]`: the lines after a leading header line, if any. */
  function SkipHeader(logs: seq<string>): seq<string> {
    var startIdx := if logs != [] && IsHeader(logs[0]) then 1 else 0;
    logs[startIdx..]
  }

  /** The lines `file_to_list` parses. */
  function Records(contents: string): seq<string> {
    SkipHeader(NonBlankLines(contents))
  }

  /** One line: the part before the first comma and the part after the
      second, both stripped; `None` when there are fewer than two commas. */
  function ParseLine(line: string): (r: Option<LogItem>)
    ensures r.Some? <==> Count(line, ',') >= 2
  {
    var parts := SplitMax(line, ',', 2);
    if |parts| != 3 then None
    else Some(LogItem(Strip(parts[0]), Strip(parts[2])))
  }

  /** A written record reads back as its stripped timestamp and message,
      whatever the message contains. */
  lemma ParseLineOfRecord(timestamp: string, event: string, message: string)
    requires ',' !in timestamp && ',' !in event
    ensures ParseLine(timestamp + "," + event + "," + message)
      == Some(LogItem(Strip(timestamp), Strip(message)))
  {
    var line := timestamp + "," + event + "," + message;
    assert line == timestamp + [','] + (event + [','] + message);
    SplitMaxAt(timestamp, ',', event + [','] + message, 2);
    SplitMaxAt(event, ',', message, 1);
    assert SplitMax(message, ',', 0) == [message];
    assert SplitMax(line, ',', 2) == [timestamp, event, message];
  }

  /** The items of the lines that parse, in line order. */
  function ParseAll(ls: seq<string>): (items: seq<LogItem>)
    ensures |items| <= |ls|
  {
    FilterMap(ls, ParseLine)
  }

  lemma ParseAllPrefix(ls: seq<string>, i: nat)
    requires i < |ls|
    ensures ParseAll(ls[..i + 1]) ==
      ParseAll(ls[..i]) + (if ParseLine(ls[i]).Some? then [ParseLine(ls[i]).value] else [])
  {
    assert ls[..i + 1] == ls[..i] + [ls[i]];
    FilterMapSnoc(ls[..i], ls[i], ParseLine);
  }

  /** Parsing is line by line: it distributes over concatenation. */
  lemma ParseAllAppend(a: seq<string>, b: seq<string>)
    ensures ParseAll(a + b) == ParseAll(a) + ParseAll(b)
  {
    FilterMapAppend(a, b, ParseLine);
  }

  /** Every item comes from a line of the input, and every line with two
      commas gives an item. */
  lemma ParseAllSources(ls: seq<string>)
    ensures forall x :: x in ParseAll(ls) <==> exists l | l in ls :: ParseLine(l) == Some(x)
  {
    FilterMapMembers(ls, ParseLine);
  }

  /** `file_to_list`. */
  method FileToList(file: Option<string>) returns (parsed: Option<seq<LogItem>>)
    ensures file.None? <==> parsed.None?
    ensures file.Some? ==> parsed.value == ParseAll(Records(file.value))
  {
    if file.None? {
      return None;
    }
    var logs := NonBlankLines(file.value);
    var lines := SkipHeader(logs);
    var items := ParseLines(lines);
    parsed := Some(items);
  }

  /** The loop of `file_to_list`. */
  method ParseLines(lines: seq<string>) returns (items: seq<LogItem>)
    ensures items == ParseAll(lines)
  {
    items := [];
    for i := 0 to |lines|
      invariant items == ParseAll(lines[..i])
    {
      ParseAllPrefix(lines, i);
      var parts := SplitMax(lines[i], ',', 2);
      if |parts| != 3 {
        continue;
      }
      items := items + [LogItem(Strip(parts[0]), Strip(parts[2]))];
    }
    assert lines[..|lines|] == lines;
  }

  /** The items whose timestamp `datetime.fromisoformat` accepts. */
  function HasTime(parseTime: string -> Option<real>): LogItem -> bool {
    (x: LogItem) => parseTime(x.timestamp).Some?
  }

  /** The instant of an item, for the items that have one. */
  function TimeKey(parseTime: string -> Option<real>): LogItem -> real {
    (x: LogItem) => if parseTime(x.timestamp).Some? then parseTime(x.timestamp).value else 0.0
  }

  /** `sort_list`: drops the items whose timestamp does not parse, then sorts
      the rest newest first. `parseTime` stands for `datetime.fromisoformat`,
      an instant as a number. */
  method SortList(parsedList: Option<seq<LogItem>>, parseTime: string -> Option<real>)
    returns (sorted: Option<seq<LogItem>>)
    ensures parsedList.None? <==> sorted.None?
    ensures parsedList.Some? ==>
      sorted.value == SortDesc(Filter(parsedList.value, HasTime(parseTime)), TimeKey(parseTime))
  {
    if parsedList.None? {
      return None;
    }
    var items := parsedList.value;
    var validItems: seq<LogItem> := [];
    for i := 0 to |items|
      invariant validItems == Filter(items[..i], HasTime(parseTime))
    {
      assert items[..i + 1][..i] == items[..i];
      if parseTime(items[i].timestamp).Some? {
        validItems := validItems + [items[i]];
      }
    }
    assert items[..|items|] == items;
    sorted := Some(SortDesc(validItems, TimeKey(parseTime)));
  }

  /** The sorted list holds exactly the items with a valid timestamp, newest
      first, items with equal instants in their input order. */
  lemma SortedLog(items: seq<LogItem>, parseTime: string -> Option<real>, t: real)
    ensures var valid := Filter(items, HasTime(parseTime));
      var s := SortDesc(valid, TimeKey(parseTime));
      multiset(s) == multiset(valid)
      && (forall x :: x in s <==> x in items && parseTime(x.timestamp).Some?)
      && (forall i, j | 0 <= i < j < |s| :: parseTime(s[i].timestamp).value >= parseTime(s[j].timestamp).value)
      && Filter(s, KeyIs(TimeKey(parseTime), t)) == Filter(valid, KeyIs(TimeKey(parseTime), t))
  {
    var valid := Filter(items, HasTime(parseTime));
    var s := SortDesc(valid, TimeKey(parseTime));
    SortDescPermutes(valid, TimeKey(parseTime));
    SortDescSorted(valid, TimeKey(parseTime));
    SortDescStable(valid, TimeKey(parseTime), t);
    FilterMembers(items, HasTime(parseTime));
    forall x ensures x in s <==> x in valid {
      assert x in s <==> x in multiset(s);
      assert x in valid <==> x in multiset(valid);
    }
    forall i | 0 <= i < |s| ensures parseTime(s[i].timestamp).Some? {
      assert s[i] in s;
    }
  }

  /** `dict(list_data)`: each timestamp to a message; a later item overrides
      an earlier one. */
  function ListToDict(items: seq<LogItem>): (d: map<string, string>)
    ensures d.Keys == set x | x in items :: x.timestamp
  {
    if items == [] then map[]
    else
      var init, last := items[..|items| - 1], items[|items| - 1];
      var d := ListToDict(init)[last.timestamp := last.message];
      assert forall x :: x in items <==> x in init || x == last by {
        assert items == init + [last];
      }
      d
  }

  /** The message kept for a timestamp is that of its last item. */
  lemma {:induction false} ListToDictLastWins(items: seq<LogItem>, i: int)
    requires 0 <= i < |items|
    requires forall j | i < j < |items| :: items[j].timestamp != items[i].timestamp
    ensures ListToDict(items)[items[i].timestamp] == items[i].message
  {
    if i < |items| - 1 {
      var init := items[..|items| - 1];
      ListToDictLastWins(init, i);
    }
  }

  /** `list_to_dict`. */
  function ListToDictOrNone(listData: Option<seq<LogItem>>): (r: Option<map<string, string>>)
    ensures r.None? <==> listData.None?
    ensures r.Some? ==> r.value == ListToDict(listData.value)
  {
    if listData.None? then None else Some(ListToDict(listData.value))
  }

  /** A message mentions some danger keyword. */
  predicate IsDanger(item: LogItem) {
    exists k | k in DangerKeywords :: Contains(item.message, k)
  }

  /** `danger_keyword_filtering`: the keywords are tried in the set's
      iteration order, which Python leaves unspecified; the first match adds
      the item and stops the inner loop. */
  method DangerKeywordFiltering(sortedList: seq<LogItem>) returns (filtered: seq<LogItem>)
    ensures filtered == Filter(sortedList, IsDanger)
  {
    filtered := [];
    for i := 0 to |sortedList|
      invariant filtered == Filter(sortedList[..i], IsDanger)
    {
      var message := sortedList[i].message;
      var remaining := DangerKeywords;
      var found := false;
      while remaining != {}
        invariant remaining <= DangerKeywords
        invariant forall k | k in DangerKeywords - remaining :: !Contains(message, k)
        decreases |remaining|
      {
        var keyword :| keyword in remaining;
        if Contains(message, keyword) {
          found := true;
          break;
        }
        remaining := remaining - {keyword};
      }
      assert found <==> IsDanger(sortedList[i]);
      assert sortedList[..i + 1][..i] == sortedList[..i];
      if found {
        filtered := filtered + [sortedList[i]];
      }
    }
    assert sortedList[..|sortedList|] == sortedList;
  }
}
