/** Storing what was shown: the text form of the playback queue round-trips. */
module QueueRoundTrip {
  import opened Common
  import opened Playback
  import opened PlaybackQueue
  import opened QueueText
  import opened Text

  /** The loop open after the items, or -1. */
  function MarkerOf(items: seq<Item>): (m: int)
    ensures -1 <= m < |items|
  {
    if items == [] then -1
    else match items[|items| - 1]
      case LoopStart => |items| - 1
      case LoopStop(_, _) => -1
      case Play(_) => MarkerOf(items[..|items| - 1])
  }

  /** An item that the parser can produce after others that leave `marker`. */
  predicate GoodItem(it: Item, marker: int, numWaves: nat) {
    match it
    case Play(Silence(ms)) => ms <= DELAY_MAX
    case Play(Wave(index, scale)) => 0 < index < numWaves && 0 < scale <= SCALE_MAX
    case LoopStart => marker < 0
    case LoopStop(target, times) => target == marker && times <= REPEAT_MAX
  }

  predicate GoodItems(items: seq<Item>, numWaves: nat) {
    items == [] ||
    var before := items[..|items| - 1];
    GoodItems(before, numWaves) && GoodItem(items[|items| - 1], MarkerOf(before), numWaves)
  }

  ghost predicate GoodQueue(st: Parsed, numWaves: nat) {
    && GoodItems(st.items, numWaves) && |st.items| < DEPTH_MAX
    && FOREVER <= st.repeat <= REPEAT_MAX && st.marker == MarkerOf(st.items)
  }

  lemma {:induction false} BangsSmall(s: Option<string>, val: nat, empty: nat)
    requires val <= REPEAT_MAX && Bangs(s, val, empty).Some?
    ensures Bangs(s, val, empty).value.0 <= REPEAT_MAX
    decreases if s.Some? then |s.value| + 1 else 0
  {
    if s.Some? {
      var (tok, rest) := Strsep(s.value, '!');
      if tok == [] { BangsSmall(rest, val, empty + 1); } else { BangsSmall(rest, Kstrtou32(tok).value, empty); }
    }
  }

  predicate GoodCommand(cmd: Command, numWaves: nat) {
    match cmd
    case Put(Silence(ms)) => ms <= DELAY_MAX
    case Put(Wave(index, scale)) => 0 < index < numWaves && 0 < scale <= SCALE_MAX
    case Close(times) => times <= REPEAT_MAX
    case Outer(times) => times <= REPEAT_MAX
    case _ => true
  }

  lemma ReadGood(seg: string, numWaves: nat)
    requires ReadSegment(seg, numWaves).Some?
    ensures GoodCommand(ReadSegment(seg, numWaves).value, numWaves)
  {
    if '.' !in seg && '!' in seg { BangsSmall(Some(seg), 0, 0); }
  }

  lemma ApplyGood(st: Parsed, cmd: Command, numWaves: nat)
    requires GoodQueue(st, numWaves) && GoodCommand(cmd, numWaves) && Apply(st, cmd).Some?
    requires |Apply(st, cmd).value.items| < DEPTH_MAX
    ensures GoodQueue(Apply(st, cmd).value, numWaves)
  {
    var st' := Apply(st, cmd).value;
    if st'.items != st.items {
      assert st'.items[..|st'.items| - 1] == st.items;
    }
  }

  lemma SegmentGood(st: Parsed, tok: string, numWaves: nat)
    requires GoodQueue(st, numWaves) && Segment(st, tok, numWaves).Ok?
    ensures GoodQueue(Segment(st, tok, numWaves).value, numWaves)
  {
    var cmd := ReadSegment(Strim(tok), numWaves).value;
    ReadGood(Strim(tok), numWaves);
    ApplySmall(st, cmd);
    ApplyGood(st, cmd, numWaves);
  }

  lemma ApplySmall(st: Parsed, cmd: Command)
    requires Apply(st, cmd).Some? && |st.items| < DEPTH_MAX
    ensures |Apply(st, cmd).value.items| <= DEPTH_MAX
  {
  }

  /** Everything the parser accepts is a good queue. */
  lemma {:induction false} ParseGood(st: Parsed, s: Option<string>, numWaves: nat)
    requires GoodQueue(st, numWaves) && Parse(st, s, numWaves).Ok?
    ensures GoodQueue(Parse(st, s, numWaves).value, numWaves)
    decreases if s.Some? then |s.value| + 1 else 0
  {
    if s.Some? {
      var (tok, rest) := Strsep(s.value, ',');
      SegmentGood(st, tok, numWaves);
      ParseGood(Segment(st, tok, numWaves).value, rest, numWaves);
    }
  }

  predicate Plain(s: string) {
    forall i :: 0 <= i < |s| ==> IsDigit(s[i]) || s[i] == '.' || s[i] == '!' || s[i] == '~'
  }

  lemma DecPlain(n: nat)
    ensures Plain(Dec(n)) && '.' !in Dec(n) && '!' !in Dec(n) && '~' !in Dec(n)
  {
    DecDigits(n);
  }

  /** Segments as shown are read back as they are. */
  lemma PlainSegment(s: string)
    requires Plain(s) && s != []
    ensures Strim(s) == s && Strim([' '] + s) == s && ',' !in s && ',' !in [' '] + s && NUL !in s
  {
    StrimPlain(s);
  }

  lemma WaveReads(index: nat, scale: nat, numWaves: nat)
    requires 0 < index < numWaves <= TAG_START && 0 < scale <= SCALE_MAX
    ensures var s := Dec(index) + "." + Dec(scale);
            Plain(s) && |s| <= SEG_LEN_MAX && ReadSegment(s, numWaves) == Some(Put(Wave(index, scale)))
  {
    var s := Dec(index) + "." + Dec(scale);
    DecPlain(index);
    DecPlain(scale);
    DecLength(index, 5, Ten(5));
    DecLength(scale, 3, Ten(3));
    assert s[|Dec(index)|] == '.';
    StrsepAt(Dec(index), '.', Dec(scale));
    StrsepAt(Dec(scale), '.', "");
    DecParses(index);
    DecParses(scale);
  }

  lemma DelayReads(ms: nat, numWaves: nat)
    requires ms <= DELAY_MAX
    ensures Plain(Dec(ms)) && |Dec(ms)| <= SEG_LEN_MAX && ReadSegment(Dec(ms), numWaves) == Some(Put(Silence(ms)))
  {
    DecPlain(ms);
    DecLength(ms, 5, Ten(5));
    DecParses(ms);
  }

  lemma OpenReads(numWaves: nat)
    ensures Plain("!!") && ReadSegment("!!", numWaves) == Some(Open)
  {
    StrsepAt("", '!', "!");
    StrsepAt("", '!', "");
    assert "" + ['!'] + "!" == "!!" && "" + ['!'] + "" == "!";
    assert Bangs(Some(""), 0, 2) == Some((0, 3));
    assert Bangs(Some("!"), 0, 1) == Some((0, 3));
    assert "!!"[0] == '!';
  }

  lemma CloseReads(times: nat, numWaves: nat)
    requires times <= REPEAT_MAX
    ensures var s := Dec(times) + "!!";
            Plain(s) && |s| <= SEG_LEN_MAX && ReadSegment(s, numWaves) == Some(Close(times))
  {
    var s := Dec(times) + "!!";
    DecPlain(times);
    DecLength(times, 2, Ten(2));
    DecParses(times);
    assert s == Dec(times) + ['!'] + "!";
    StrsepAt(Dec(times), '!', "!");
    StrsepAt("", '!', "");
    assert "" + ['!'] + "" == "!";
    assert Bangs(Some(""), times, 1) == Some((times, 2));
    assert Bangs(Some("!"), times, 0) == Some((times, 2));
    assert s[|Dec(times)|] == '!';
  }

  lemma OuterReads(times: nat, numWaves: nat)
    requires times <= REPEAT_MAX
    ensures var s := Dec(times) + "!";
            Plain(s) && |s| <= SEG_LEN_MAX && ReadSegment(s, numWaves) == Some(Outer(times))
  {
    var s := Dec(times) + "!";
    DecPlain(times);
    DecLength(times, 2, Ten(2));
    DecParses(times);
    assert s == Dec(times) + ['!'] + "";
    StrsepAt(Dec(times), '!', "");
    StrsepAt("", '!', "");
    assert Bangs(Some(""), times, 0) == Some((times, 1));
    assert s[|Dec(times)|] == '!';
  }

  lemma EndlessReads(numWaves: nat)
    ensures Plain("~") && ReadSegment("~", numWaves) == Some(Endless)
  {
    assert "~"[0] == '~';
  }

  function CommandOf(it: Item): (cmd: Command) {
    match it
    case Play(e) => Put(e)
    case LoopStart => Open
    case LoopStop(_, times) => Close(times)
  }

  lemma ItemReads(it: Item, marker: int, numWaves: nat)
    requires GoodItem(it, marker, numWaves) && numWaves <= TAG_START
    ensures Plain(ShowItem(it)) && 0 < |ShowItem(it)| <= SEG_LEN_MAX
    ensures ReadSegment(ShowItem(it), numWaves) == Some(CommandOf(it))
  {
    match it
    case Play(Silence(ms)) => DelayReads(ms, numWaves);
    case Play(Wave(index, scale)) => WaveReads(index, scale, numWaves);
    case LoopStart => OpenReads(numWaves);
    case LoopStop(_, times) => CloseReads(times, numWaves);
  }

  lemma SegmentIs(st: Parsed, tok: string, seg: string, cmd: Command, st': Parsed, numWaves: nat)
    requires Strim(tok) == seg && |seg| <= SEG_LEN_MAX && ReadSegment(seg, numWaves) == Some(cmd)
    requires Apply(st, cmd) == Some(st') && |st'.items| < DEPTH_MAX
    ensures Segment(st, tok, numWaves) == Ok(st')
  {
  }

  /** One segment, and then the rest or the end of the text. */
  lemma ParseStep(st: Parsed, tok: string, rest: string, st': Parsed, numWaves: nat)
    requires ',' !in tok && Segment(st, tok, numWaves) == Ok(st')
    ensures Parse(st, Some(tok + [','] + rest), numWaves) == Parse(st', Some(rest), numWaves)
    ensures Parse(st, Some(tok), numWaves) == Ok(st')
  {
    StrsepAt(tok, ',', rest);
  }

  lemma AppendMarker(before: seq<Item>, it: Item)
    ensures var st, st' := Parsed(before, 0, MarkerOf(before)), Parsed(before + [it], 0, MarkerOf(before + [it]));
            (it.LoopStart? ==> MarkerOf(before) < 0) && (it.LoopStop? ==> it.target == MarkerOf(before)) ==>
              Apply(st, CommandOf(it)) == Some(st')
  {
    assert (before + [it])[..|before|] == before;
  }

  /** Reading a shown item appends it. */
  lemma SegmentShows(before: seq<Item>, it: Item, numWaves: nat, tok: string)
    requires GoodItem(it, MarkerOf(before), numWaves) && numWaves <= TAG_START && |before| + 1 < DEPTH_MAX
    requires tok == ShowItem(it) || tok == [' '] + ShowItem(it)
    ensures Segment(Parsed(before, 0, MarkerOf(before)), tok, numWaves)
         == Ok(Parsed(before + [it], 0, MarkerOf(before + [it])))
    ensures ',' !in tok && NUL !in tok
  {
    var s := ShowItem(it);
    ItemReads(it, MarkerOf(before), numWaves);
    PlainSegment(s);
    AppendMarker(before, it);
    SegmentIs(Parsed(before, 0, MarkerOf(before)), tok, s, CommandOf(it),
              Parsed(before + [it], 0, MarkerOf(before + [it])), numWaves);
  }

  /** The repetition at the end of the text, without the newline. */
  function RepeatSeg(repeat: int): (s: string)
    requires repeat >= FOREVER
  {
    if repeat == FOREVER then "~" else Dec(repeat) + "!"
  }

  function RepeatTail(repeat: int): (s: string)
    requires repeat >= FOREVER
  {
    if repeat == 0 then "" else ", " + RepeatSeg(repeat)
  }

  lemma RepeatSegReads(repeat: int, numWaves: nat)
    requires FOREVER <= repeat <= REPEAT_MAX
    ensures |RepeatSeg(repeat)| <= SEG_LEN_MAX
    ensures ReadSegment(RepeatSeg(repeat), numWaves) == Some(if repeat == FOREVER then Endless else Outer(repeat))
    ensures Strim([' '] + RepeatSeg(repeat)) == RepeatSeg(repeat) && ',' !in [' '] + RepeatSeg(repeat)
  {
    if repeat == FOREVER { EndlessReads(numWaves); } else { OuterReads(repeat, numWaves); }
    PlainSegment(RepeatSeg(repeat));
  }

  lemma RepeatReads(items: seq<Item>, repeat: int, numWaves: nat)
    requires FOREVER <= repeat <= REPEAT_MAX && |items| < DEPTH_MAX
    ensures ',' !in [' '] + RepeatSeg(repeat)
    ensures Segment(Parsed(items, 0, MarkerOf(items)), [' '] + RepeatSeg(repeat), numWaves)
         == Ok(Parsed(items, repeat, MarkerOf(items)))
  {
    var seg := RepeatSeg(repeat);
    RepeatSegReads(repeat, numWaves);
    SegmentIs(Parsed(items, 0, MarkerOf(items)), [' '] + seg, seg,
              if repeat == FOREVER then Endless else Outer(repeat), Parsed(items, repeat, MarkerOf(items)), numWaves);
  }

  lemma TailText(last: string, repeat: int)
    requires repeat >= FOREVER
    ensures last + RepeatTail(repeat) == if repeat == 0 then last else last + [','] + ([' '] + RepeatSeg(repeat))
  {
  }

  /** The end of the text, after all items. */
  lemma TailReads(items: seq<Item>, repeat: int, numWaves: nat, last: string, st: Parsed)
    requires FOREVER <= repeat <= REPEAT_MAX && |items| < DEPTH_MAX && ',' !in last
    requires Segment(st, last, numWaves) == Ok(Parsed(items, 0, MarkerOf(items)))
    ensures Parse(st, Some(last + RepeatTail(repeat)), numWaves) == Ok(Parsed(items, repeat, MarkerOf(items)))
  {
    TailText(last, repeat);
    if repeat == 0 {
      ParseStep(st, last, "", Parsed(items, 0, MarkerOf(items)), numWaves);
    } else {
      RepeatReads(items, repeat, numWaves);
      var seg := [' '] + RepeatSeg(repeat);
      ParseStep(st, last, seg, Parsed(items, 0, MarkerOf(items)), numWaves);
      ParseStep(Parsed(items, 0, MarkerOf(items)), seg, "", Parsed(items, repeat, MarkerOf(items)), numWaves);
    }
  }

  lemma {:induction false} GoodPrefix(items: seq<Item>, k: nat, numWaves: nat)
    requires GoodItems(items, numWaves) && k <= |items|
    ensures GoodItems(items[..k], numWaves)
    ensures k < |items| ==> GoodItem(items[k], MarkerOf(items[..k]), numWaves)
    decreases |items|
  {
    if k == |items| {
      assert items[..k] == items;
    } else if k < |items| - 1 {
      GoodPrefix(items[..|items| - 1], k, numWaves);
      assert items[..|items| - 1][..k] == items[..k];
    }
  }

  function Margin(k: nat): (s: string) {
    if k == 0 then "" else " "
  }

  /** The text from item k on. */
  function TextFrom(items: seq<Item>, k: nat, repeat: int): (s: string)
    requires k <= |items| && repeat >= FOREVER
  {
    Margin(k) + ShowItems(items[k..]) + RepeatTail(repeat)
  }

  lemma TextFromStart(items: seq<Item>, repeat: int)
    requires repeat >= FOREVER
    ensures TextFrom(items, 0, repeat) == ShowItems(items) + RepeatTail(repeat)
    ensures Parsed(items[..0], 0, MarkerOf(items[..0])) == NOTHING
  {
    assert items[0..] == items;
    assert "" + ShowItems(items) == ShowItems(items);
  }

  lemma TextStep(items: seq<Item>, k: nat, repeat: int)
    requires k < |items| && repeat >= FOREVER
    ensures var tok := Margin(k) + ShowItem(items[k]);
            TextFrom(items, k, repeat) == if k + 1 == |items| then tok + RepeatTail(repeat)
                                          else tok + [','] + TextFrom(items, k + 1, repeat)
  {
    if k + 1 == |items| {
      assert items[k..] == [items[k]];
    } else {
      assert items[k..][1..] == items[k + 1..];
    }
  }

  /** Reading the shown items from the k-th on, and the repetition after them. */
  lemma {:induction false} ItemsRead(items: seq<Item>, k: nat, repeat: int, numWaves: nat)
    requires GoodItems(items, numWaves) && k < |items| < DEPTH_MAX && numWaves <= TAG_START
    requires FOREVER <= repeat <= REPEAT_MAX
    ensures Parse(Parsed(items[..k], 0, MarkerOf(items[..k])), Some(TextFrom(items, k, repeat)), numWaves)
         == Ok(Parsed(items, repeat, MarkerOf(items)))
    decreases |items| - k
  {
    var before, it := items[..k], items[k];
    var st, tok := Parsed(before, 0, MarkerOf(before)), Margin(k) + ShowItem(it);
    GoodPrefix(items, k, numWaves);
    assert tok == ShowItem(it) || tok == [' '] + ShowItem(it);
    SegmentShows(before, it, numWaves, tok);
    assert before + [it] == items[..k + 1];
    TextStep(items, k, repeat);
    if k + 1 == |items| {
      assert items[..k + 1] == items;
      TailReads(items, repeat, numWaves, tok, st);
    } else {
      ItemsRead(items, k + 1, repeat, numWaves);
      ParseStep(st, tok, TextFrom(items, k + 1, repeat), Parsed(items[..k + 1], 0, MarkerOf(items[..k + 1])), numWaves);
    }
  }

  lemma ItemNoNul(it: Item, marker: int, numWaves: nat)
    requires GoodItem(it, marker, numWaves) && numWaves <= TAG_START
    ensures NUL !in ShowItem(it)
  {
    ItemReads(it, marker, numWaves);
    PlainSegment(ShowItem(it));
  }

  lemma {:induction false} NoNul(items: seq<Item>, k: nat, numWaves: nat)
    requires GoodItems(items, numWaves) && k < |items| && numWaves <= TAG_START
    ensures NUL !in ShowItems(items[k..])
    decreases |items| - k
  {
    GoodPrefix(items, k, numWaves);
    ItemNoNul(items[k], MarkerOf(items[..k]), numWaves);
    if k + 1 < |items| {
      NoNul(items, k + 1, numWaves);
      assert items[k..][1..] == items[k + 1..];
    } else {
      assert items[k..] == [items[k]];
    }
  }

  /** A copy loses the last byte and nothing else. */
  lemma CopyLosesLast(body: string)
    requires NUL !in body
    ensures Strlcpy(body + "\n", |body| + 1) == body
  {
    var buf := body + "\n";
    IndexOfSkip(buf, "", NUL);
    assert buf + "" == buf && buf[..|buf|] == buf;
  }

  lemma TailNoNul(repeat: int)
    requires repeat >= FOREVER
    ensures NUL !in RepeatTail(repeat) && ShowRepeat(repeat) == RepeatTail(repeat) + "\n"
  {
    if repeat > 0 { DecPlain(repeat); }
  }

  lemma CopyShown(items: seq<Item>, repeat: int, numWaves: nat)
    requires GoodItems(items, numWaves) && items != [] && numWaves <= TAG_START && FOREVER <= repeat <= REPEAT_MAX
    ensures var buf := ShowText(items, repeat);
            buf != [] && Strlcpy(buf, |buf|) == ShowItems(items) + RepeatTail(repeat)
  {
    var body := ShowItems(items) + RepeatTail(repeat);
    assert items[0..] == items;
    NoNul(items, 0, numWaves);
    TailNoNul(repeat);
    assert ShowText(items, repeat) == body + "\n";
    CopyLosesLast(body);
  }

  /** Storing what is shown of a good queue gives that queue. */
  lemma ShowStore(st: Parsed, numWaves: nat)
    requires GoodQueue(st, numWaves) && st.items != [] && numWaves <= TAG_START
    ensures ShowText(st.items, st.repeat) != []
    ensures ParseText(ShowText(st.items, st.repeat), numWaves) == Ok(st)
  {
    CopyShown(st.items, st.repeat, numWaves);
    TextFromStart(st.items, st.repeat);
    ItemsRead(st.items, 0, st.repeat, numWaves);
  }

  /** For every text that was stored with success and is not empty, storing what
      is then shown gives the same queue. */
  lemma StoreShowStore(text: string, numWaves: nat)
    requires text != [] && numWaves <= TAG_START
    requires ParseText(text, numWaves).Ok? && ParseText(text, numWaves).value.items != []
    ensures var st := ParseText(text, numWaves).value;
            && st.repeat >= FOREVER && ShowText(st.items, st.repeat) != []
            && ParseText(ShowText(st.items, st.repeat), numWaves) == Ok(st)
  {
    ParseGood(NOTHING, Some(Strlcpy(text, |text|)), numWaves);
    ShowStore(ParseText(text, numWaves).value, numWaves);
  }

  lemma {:induction false} ShowItemsLength(items: seq<Item>, k: nat, numWaves: nat)
    requires GoodItems(items, numWaves) && k < |items| && numWaves <= TAG_START
    ensures |ShowItems(items[k..])| <= 12 * (|items| - k)
    decreases |items| - k
  {
    GoodPrefix(items, k, numWaves);
    ItemReads(items[k], MarkerOf(items[..k]), numWaves);
    if k + 1 < |items| {
      ShowItemsLength(items, k + 1, numWaves);
      assert items[k..][1..] == items[k + 1..];
    } else {
      assert items[k..] == [items[k]];
    }
  }

  /** The text of a stored queue fits the page it is printed to. */
  lemma ShowFits(items: seq<Item>, repeat: int, numWaves: nat)
    requires GoodItems(items, numWaves) && 0 < |items| < DEPTH_MAX && numWaves <= TAG_START
    requires FOREVER <= repeat <= REPEAT_MAX
    ensures |ShowText(items, repeat)| < PAGE_SIZE
  {
    ShowItemsLength(items, 0, numWaves);
    assert items[0..] == items;
    if repeat > 0 { DecLength(repeat, 2, Ten(2)); }
  }
}
