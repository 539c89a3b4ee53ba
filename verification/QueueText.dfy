/** The text form of the playback queue: cs40l2x_cp_trigger_queue_store and
    cs40l2x_cp_trigger_queue_show. */
module QueueText {
  import opened Common
  import opened Playback
  import opened PlaybackQueue
  import opened Text

  const SEG_LEN_MAX: nat := 10
  const SCALE_MAX: nat := 100
  const DELAY_MAX: nat := 10000
  const REPEAT_MAX: nat := 16
  const PAGE_SIZE: nat := 4096

  datatype Error = E2BIG | EINVAL
  datatype Result<T> = Ok(value: T) | Err(error: Error)

  /** What one segment of the text asks for. */
  datatype Command = Put(e: Event) | Open | Close(times: nat) | Outer(times: nat) | Endless

  /** What has been read: the items, the outer repeat, the loop still open. */
  datatype Parsed = Parsed(items: seq<Item>, repeat: int, marker: int)

  const NOTHING := Parsed([], 0, -1)

  /** The tokens between exclamation marks: the last number and how many are empty. */
  function Bangs(s: Option<string>, val: nat, empty: nat): (r: Option<(nat, nat)>)
    decreases if s.Some? then |s.value| + 1 else 0
  {
    if s.None? then Some((val, empty))
    else
      var (tok, rest) := Strsep(s.value, '!');
      if tok == [] then Bangs(rest, val, empty + 1)
      else
        var n := Kstrtou32(tok);
        if n.None? || n.value > REPEAT_MAX then None else Bangs(rest, n.value, empty)
  }

  function ReadWave(seg: string, numWaves: nat): (r: Option<Command>) {
    var (tok, rest) := Strsep(seg, '.');
    var index := Kstrtou32(tok);
    if rest.None? || index.None? || index.value == 0 || index.value >= numWaves then None
    else
      var scale := Kstrtou32(Strsep(rest.value, '.').0);
      if scale.None? || scale.value == 0 || scale.value > SCALE_MAX then None
      else Some(Put(Wave(index.value, scale.value)))
  }

  function ReadRepeat(seg: string): (r: Option<Command>) {
    match Bangs(Some(seg), 0, 0)
    case Some((val, 1)) => Some(Outer(val))
    case Some((val, 2)) => Some(Close(val))
    case Some((val, 3)) => Some(Open)
    case _ => None
  }

  function ReadDelay(seg: string): (r: Option<Command>) {
    var ms := Kstrtou32(seg);
    if ms.None? || ms.value > DELAY_MAX then None else Some(Put(Silence(ms.value)))
  }

  /** One trimmed segment. */
  function ReadSegment(seg: string, numWaves: nat): (r: Option<Command>) {
    if '.' in seg then ReadWave(seg, numWaves)
    else if '!' in seg then ReadRepeat(seg)
    else if '~' in seg then Some(Endless)
    else ReadDelay(seg)
  }

  /** What a command does to what has been read so far. */
  function Apply(st: Parsed, cmd: Command): (r: Option<Parsed>) {
    match cmd
    case Put(e) => Some(st.(items := st.items + [Play(e)]))
    case Outer(times) => if st.repeat != 0 then None else Some(st.(repeat := times))
    case Endless => if st.repeat != 0 then None else Some(st.(repeat := FOREVER))
    case Open =>
      if st.marker >= 0 then None else Some(Parsed(st.items + [LoopStart], st.repeat, |st.items|))
    case Close(times) =>
      if st.marker < 0 then None else Some(Parsed(st.items + [LoopStop(st.marker, times)], st.repeat, -1))
  }

  /** One segment: the body of the loop over the text. */
  function Segment(st: Parsed, tok: string, numWaves: nat): (r: Result<Parsed>) {
    var seg := Strim(tok);
    if |seg| > SEG_LEN_MAX then Err(E2BIG)
    else
      var cmd := ReadSegment(seg, numWaves);
      var st' := if cmd.None? then None else Apply(st, cmd.value);
      if st'.None? then Err(EINVAL)
      else if |st'.value.items| == DEPTH_MAX then Err(E2BIG)
      else Ok(st'.value)
  }

  function Parse(st: Parsed, s: Option<string>, numWaves: nat): (r: Result<Parsed>)
    decreases if s.Some? then |s.value| + 1 else 0
  {
    if s.None? then Ok(st)
    else
      var (tok, rest) := Strsep(s.value, ',');
      var r := Segment(st, tok, numWaves);
      if r.Err? then r else Parse(r.value, rest, numWaves)
  }

  /** cs40l2x_cp_trigger_queue_store as a function: the last byte of what is
      written is cut off. */
  function ParseText(buf: string, numWaves: nat): (r: Result<Parsed>)
    requires buf != []
  {
    Parse(NOTHING, Some(Strlcpy(buf, |buf|)), numWaves)
  }

  function ShowItem(it: Item): (s: string) {
    match it
    case Play(Silence(ms)) => Dec(ms)
    case Play(Wave(index, scale)) => Dec(index) + "." + Dec(scale)
    case LoopStart => "!!"
    case LoopStop(_, times) => Dec(times) + "!!"
  }

  /** The items, with a separator between two. */
  function ShowItems(items: seq<Item>): (s: string) {
    if items == [] then ""
    else if |items| == 1 then ShowItem(items[0])
    else ShowItem(items[0]) + ", " + ShowItems(items[1..])
  }

  function ShowRepeat(repeat: int): (s: string)
    requires repeat >= FOREVER
  {
    if repeat == FOREVER then ", ~\n" else if repeat == 0 then "\n" else ", " + Dec(repeat) + "!\n"
  }

  /** cs40l2x_cp_trigger_queue_show as a function. */
  function ShowText(items: seq<Item>, repeat: int): (s: string)
    requires repeat >= FOREVER
  {
    ShowItems(items) + ShowRepeat(repeat)
  }
}
