/**
 * The classification helpers of the rendering utilities: tag and badge
 * lookups, the find-or-return-code lookup, the priority bands and the small
 * code-to-label maps.
 *
 * JSX is replaced by the data it is built from (a colour, a status, a
 * message), and an `intl.get(key).d(fallback)` message by its key and
 * fallback text.
 */
module Renderer {
  import opened Options
  import opened Text
  import opened JsValues

  /** `intl.get(key).d(fallback)`: a message key with its default text. */
  datatype Message = Message(key: string, fallback: string)

  // ---------------------------------------------------------------------------
  // Array.prototype.find over plain objects
  // ---------------------------------------------------------------------------

  /** The index of the first item satisfying `p`, as `find` scans. */
  function FindIndex(items: seq<Object>, p: Object -> bool): (r: Option<nat>)
    ensures r.Some? ==> r.value < |items| && p(items[r.value])
    ensures r.Some? ==> forall j | 0 <= j < r.value :: !p(items[j])
    ensures r.None? ==> forall j | 0 <= j < |items| :: !p(items[j])
    decreases |items|
  {
    if |items| == 0 then None
    else if p(items[0]) then Some(0)
    else
      match FindIndex(items[1..], p)
      case None => None
      case Some(i) => Some(i + 1)
  }

  /** `items.find(p)`: the first item satisfying `p`, or undefined. */
  function Find(items: seq<Object>, p: Object -> bool): Value {
    match FindIndex(items, p)
    case None => Undefined
    case Some(i) => Obj(items[i])
  }

  /** The item at `i` is the one `find` returns when it is the first that satisfies `p`. */
  lemma FindFirst(items: seq<Object>, p: Object -> bool, i: nat)
    requires i < |items| && p(items[i])
    requires forall j | 0 <= j < i :: !p(items[j])
    ensures Find(items, p) == Obj(items[i])
  {
    var r := FindIndex(items, p);
    assert r.Some?;
    assert !(r.value < i);
    assert !(i < r.value);
  }

  /** `find` returns undefined exactly when no item satisfies `p`. */
  lemma FindNone(items: seq<Object>, p: Object -> bool)
    ensures Find(items, p) == Undefined <==> forall j | 0 <= j < |items| :: !p(items[j])
  {
  }

  /** The properties of a found object, or of the fallback value. */
  function Fields(v: Value): Object {
    if v.Obj? then v.fields else map[]
  }

  // ---------------------------------------------------------------------------
  // TagRender
  // ---------------------------------------------------------------------------

  /** The rendered tag, or the empty string. */
  datatype TagView = NoTag | Tag(color: Value, content: Value)

  /** `item => item.status === s`. */
  function StatusIs(s: Value): Object -> bool {
    item => StrictEquals(Prop(item, "status"), s)
  }

  /**
   * `TagRender(status, statusList, text)`: nothing for an empty status;
   * otherwise the entry whose status matches, else the `'default'` entry,
   * else an empty entry, gives the colour (or '') and, unless `text` is
   * truthy, the content.
   */
  function TagRender(status: Value, statusList: seq<Object>, text: Value): (r: TagView)
    ensures r.NoTag? <==> status == Str("") || IsNullish(status)
  {
    if status == Str("") || status == Undefined || status == Null then NoTag
    else
      var current := Or(Or(Find(statusList, StatusIs(status)), Find(statusList, StatusIs(Str("default")))), Obj(map[]));
      var fields := Fields(current);
      Tag(Or(Prop(fields, "color"), Str("")), Or(text, Prop(fields, "text")))
  }

  /** A non-empty status picks the first entry with that status. */
  lemma TagRenderMatch(status: Value, statusList: seq<Object>, text: Value, i: nat)
    requires status != Str("") && !IsNullish(status)
    requires i < |statusList| && StrictEquals(Prop(statusList[i], "status"), status)
    requires forall j | 0 <= j < i :: !StrictEquals(Prop(statusList[j], "status"), status)
    ensures TagRender(status, statusList, text)
            == Tag(Or(Prop(statusList[i], "color"), Str("")), Or(text, Prop(statusList[i], "text")))
  {
    FindFirst(statusList, StatusIs(status), i);
  }

  /** Without an entry for the status, the first `'default'` entry is used. */
  lemma TagRenderDefault(status: Value, statusList: seq<Object>, text: Value, i: nat)
    requires status != Str("") && !IsNullish(status)
    requires forall j | 0 <= j < |statusList| :: !StrictEquals(Prop(statusList[j], "status"), status)
    requires i < |statusList| && Prop(statusList[i], "status") == Str("default")
    requires forall j | 0 <= j < i :: Prop(statusList[j], "status") != Str("default")
    ensures TagRender(status, statusList, text)
            == Tag(Or(Prop(statusList[i], "color"), Str("")), Or(text, Prop(statusList[i], "text")))
  {
    FindNone(statusList, StatusIs(status));
    FindFirst(statusList, StatusIs(Str("default")), i);
  }

  /** With neither, the tag has colour '' and shows `text` (or undefined). */
  lemma TagRenderFallback(status: Value, statusList: seq<Object>, text: Value)
    requires status != Str("") && !IsNullish(status)
    requires forall j | 0 <= j < |statusList| ::
               !StrictEquals(Prop(statusList[j], "status"), status) && Prop(statusList[j], "status") != Str("default")
    ensures TagRender(status, statusList, text) == Tag(Str(""), Or(text, Undefined))
  {
    FindNone(statusList, StatusIs(status));
    FindNone(statusList, StatusIs(Str("default")));
  }

  /** A truthy `text` always wins over the entry's text, and the colour is never a falsy value. */
  lemma TagRenderTextWins(status: Value, statusList: seq<Object>, text: Value)
    requires status != Str("") && !IsNullish(status)
    ensures var r := TagRender(status, statusList, text);
            && r.Tag?
            && (Truthy(text) ==> r.content == text)
            && (Truthy(r.color) || r.color == Str(""))
  {
  }

  // ---------------------------------------------------------------------------
  // valueMapMeaning
  // ---------------------------------------------------------------------------

  /** `item => item.value === code || item.code === code`. */
  function MatchesCode(code: Value): Object -> bool {
    item => StrictEquals(Prop(item, "value"), code) || StrictEquals(Prop(item, "code"), code)
  }

  /** The first matching item's meaning (or name, when the meaning is falsy); the code when none matches. */
  function ValueMapMeaning(dataList: seq<Object>, code: Value): (r: Value)
    ensures (forall j | 0 <= j < |dataList| :: !MatchesCode(code)(dataList[j])) ==> r == code
  {
    var target := Find(dataList, MatchesCode(code));
    if target == Undefined then code
    else Or(Prop(Fields(target), "meaning"), Prop(Fields(target), "name"))
  }

  /** The first item that carries the code, under `value` or under `code`, gives the text. */
  lemma ValueMapMeaningFirst(dataList: seq<Object>, code: Value, i: nat)
    requires i < |dataList|
    requires StrictEquals(Prop(dataList[i], "value"), code) || StrictEquals(Prop(dataList[i], "code"), code)
    requires forall j | 0 <= j < i ::
               !StrictEquals(Prop(dataList[j], "value"), code) && !StrictEquals(Prop(dataList[j], "code"), code)
    ensures ValueMapMeaning(dataList, code) == Or(Prop(dataList[i], "meaning"), Prop(dataList[i], "name"))
  {
    FindFirst(dataList, MatchesCode(code), i);
  }

  /** When no item carries the code, the code itself is returned unchanged. */
  lemma ValueMapMeaningMissing(dataList: seq<Object>, code: Value)
    requires forall j | 0 <= j < |dataList| ::
               !StrictEquals(Prop(dataList[j], "value"), code) && !StrictEquals(Prop(dataList[j], "code"), code)
    ensures ValueMapMeaning(dataList, code) == code
  {
    assert forall j | 0 <= j < |dataList| :: !MatchesCode(code)(dataList[j]);
  }

  // ---------------------------------------------------------------------------
  // priorityRender
  // ---------------------------------------------------------------------------

  /** The argument as the comparisons see it: omitted (defaulting to 0), a number, or NaN. */
  datatype PriorityArg = Omitted | Number(x: real) | NotANumber

  datatype Priority = Low | Medium | High

  /** `v < 35` low, else `v > 65` high, else medium; NaN fails both comparisons. */
  function PriorityRender(v: PriorityArg): (r: Priority) {
    var x := if v.Omitted? then Some(0.0) else if v.Number? then Some(v.x) else None;
    if x.Some? && x.value < 35.0 then Low
    else if x.Some? && x.value > 65.0 then High
    else Medium
  }

  function Rank(p: Priority): nat {
    match p
    case Low => 0
    case Medium => 1
    case High => 2
  }

  /** The three bands: below 35, above 65, and 35 to 65 inclusive; an omitted value is low. */
  lemma PriorityBands(v: PriorityArg)
    ensures PriorityRender(v) == Low <==> v.Omitted? || (v.Number? && v.x < 35.0)
    ensures PriorityRender(v) == High <==> v.Number? && v.x > 65.0
    ensures PriorityRender(v) == Medium <==> v.NotANumber? || (v.Number? && 35.0 <= v.x <= 65.0)
  {
  }

  /** A larger number never gets a lower priority. */
  lemma PriorityMonotonic(x: real, y: real)
    requires x <= y
    ensures Rank(PriorityRender(Number(x))) <= Rank(PriorityRender(Number(y)))
  {
  }

  // ---------------------------------------------------------------------------
  // Code-to-label maps
  // ---------------------------------------------------------------------------

  const ReadMessage := Message("hzero.common.status.read", "已读")
  const UnreadMessage := Message("hzero.common.status.unread", "未读")

  /** `readFlagRender`: 'Y' or 1 read, 'N' or 0 unread, anything else nothing (None). */
  function ReadFlagRender(v: Value): Option<Message> {
    if StrictEquals(v, Str("Y")) || StrictEquals(v, Num(1)) then Some(ReadMessage)
    else if StrictEquals(v, Str("N")) || StrictEquals(v, Num(0)) then Some(UnreadMessage)
    else None
  }

  /** The read flags as a table. */
  const ReadFlagCodes: map<Value, Message> :=
    map[Str("Y") := ReadMessage, Num(1) := ReadMessage, Str("N") := UnreadMessage, Num(0) := UnreadMessage]

  /** Exactly the four codes of the table have a label; there is no coercion (`'1'`, `true` get none). */
  lemma ReadFlagRenderIsTable(v: Value)
    ensures ReadFlagRender(v) == if v in ReadFlagCodes then Some(ReadFlagCodes[v]) else None
  {
  }

  const AutoMessage := Message("hzero.common.jobGroup.auto", "自动注册")
  const ByHandMessage := Message("hzero.common.jobGroup.byHand", "手动录入")

  /** `addressTypeRender`: 0 automatic registration, 1 entered by hand, anything else nothing (None). */
  function AddressTypeRender(addressType: Value): Option<Message> {
    if StrictEquals(addressType, Num(0)) then Some(AutoMessage)
    else if StrictEquals(addressType, Num(1)) then Some(ByHandMessage)
    else None
  }

  const AddressTypeCodes: map<Value, Message> := map[Num(0) := AutoMessage, Num(1) := ByHandMessage]

  lemma AddressTypeRenderIsTable(v: Value)
    ensures AddressTypeRender(v) == if v in AddressTypeCodes then Some(AddressTypeCodes[v]) else None
  {
  }

  /** A coloured span with a message. */
  datatype Span = Span(color: string, message: Message)

  const NormalSpan := Span("rgb(102, 205, 0)", Message("hzero.common.status.normal", "正常"))
  const AbnormalSpan := Span("rgb(240, 65, 52)", Message("hzero.common.status.abnormal", "故障"))
  const UnmonitoredSpan := Span("rgb(205, 133, 63)", Message("hzero.common.status.unmonitor", "未在监控"))

  /** `enableFlag`: 1 normal, -1 abnormal, anything else not monitored. */
  function EnableFlag(flag: Value): Span {
    if StrictEquals(flag, Num(1)) then NormalSpan
    else if StrictEquals(flag, Num(-1)) then AbnormalSpan
    else UnmonitoredSpan
  }

  const EnableFlagCodes: map<Value, Span> := map[Num(1) := NormalSpan, Num(-1) := AbnormalSpan]

  lemma EnableFlagIsTable(v: Value)
    ensures EnableFlag(v) == if v in EnableFlagCodes then EnableFlagCodes[v] else UnmonitoredSpan
  {
  }

  // ---------------------------------------------------------------------------
  // statusRender
  // ---------------------------------------------------------------------------

  datatype BadgeStatus = Success | Error | Default | Processing | Warning

  /** `statusCodeMap`, including its `RUNING` spelling next to `RUNNING`. */
  const StatusCodeMap: map<string, BadgeStatus> := map[
    "S" := Success,
    "F" := Error,
    "P" := Default,
    "RUNING" := Processing,
    "PENDING" := Default,
    "COMPLETE" := Success,
    "ERROR" := Error,
    "RUNNING" := Processing,
    "NEW" := Default,
    "PART" := Processing,
    "SUCCESS" := Success,
    "UNEXECUTE" := Default,
    "FAILED" := Error
  ]

  datatype Badge = Badge(status: Option<BadgeStatus>, text: Value)

  /** `statusRender(v, m)`: the badge status is looked up under the code's string form; the text is `m || v`. */
  function StatusRender(v: Value, m: Value): (r: Badge)
    ensures Truthy(m) ==> r.text == m
    ensures !Truthy(m) ==> r.text == v
  {
    var key := ToString(v);
    Badge(if key in StatusCodeMap then Some(StatusCodeMap[key]) else None, Or(m, v))
  }

  /** The codes of each badge status, grouped by status. */
  function CodesOf(st: BadgeStatus): set<string> {
    match st
    case Success => {"S", "COMPLETE", "SUCCESS"}
    case Error => {"F", "ERROR", "FAILED"}
    case Default => {"P", "PENDING", "NEW", "UNEXECUTE"}
    case Processing => {"RUNING", "RUNNING", "PART"}
    case Warning => {}
  }

  /** A code gets a status exactly when it is one of that status's codes; no code gets `warning`. */
  lemma StatusRenderCodes(c: string, m: Value, st: BadgeStatus)
    ensures StatusRender(Str(c), m).status == Some(st) <==> c in CodesOf(st)
  {
  }

  /** Number codes get no badge status: every key of the table starts with a letter. */
  lemma StatusRenderNumber(n: int, m: Value)
    ensures StatusRender(Num(n), m).status == None
  {
    var key := IntToString(n);
    assert key[0] == '-' || IsDigit(key[0]);
    forall k | k in StatusCodeMap ensures k != key {
      assert 'A' <= k[0] <= 'Z';
    }
  }
}
