/** The per-chat session store: one JSON document mapping `str(chat_id)` to a
    record `{start?, end?, normalize?}`. The document is modelled as an immutable
    map; every writer returns the document it would save. */
module Session {
  import opened Wrappers

  function DigitChar(d: int): char
    requires 0 <= d < 10
  {
    (48 + d) as char
  }

  /** Decimal digits of a non-negative integer, without leading zeros. */
  function NatString(n: nat): (s: string)
    ensures |s| >= 1
    ensures n < 10 <==> |s| == 1
    ensures forall k :: 0 <= k < |s| ==> '0' <= s[k] <= '9'
    decreases n
  {
    if n < 10 then [DigitChar(n)] else NatString(n / 10) + [DigitChar(n % 10)]
  }

  /** Python's `str(n)` for an `int`. */
  function IntString(n: int): string {
    if n < 0 then "-" + NatString(-n) else NatString(n)
  }

  /** Distinct numbers have distinct decimal digit strings. */
  lemma {:induction false} NatStringInjective(a: nat, b: nat)
    requires NatString(a) == NatString(b)
    ensures a == b
    decreases a
  {
    if a >= 10 && b >= 10 {
      var sa, sb := NatString(a), NatString(b);
      assert sa[..|sa| - 1] == NatString(a / 10);
      assert sb[..|sb| - 1] == NatString(b / 10);
      assert DigitChar(a % 10) == sa[|sa| - 1] == sb[|sb| - 1] == DigitChar(b % 10);
      NatStringInjective(a / 10, b / 10);
    } else if a < 10 && b < 10 {
      assert DigitChar(a) == NatString(a)[0] == NatString(b)[0] == DigitChar(b);
    }
  }

  /** `str(n)` starts with a minus sign exactly for negative `n`. */
  lemma IntStringSign(n: int)
    ensures |IntString(n)| >= 1
    ensures IntString(n)[0] == '-' <==> n < 0
  {
    if n >= 0 {
      assert '0' <= NatString(n)[0] <= '9';
    }
  }

  /** `str` is injective on integers, so distinct chats never share a key. */
  lemma IntStringInjective(a: int, b: int)
    requires IntString(a) == IntString(b)
    ensures a == b
  {
    IntStringSign(a);
    IntStringSign(b);
    if a < 0 {
      assert NatString(-a) == IntString(a)[1..] == IntString(b)[1..] == NatString(-b);
      NatStringInjective(-a, -b);
    } else {
      NatStringInjective(a, b);
    }
  }

  /** The document key of a chat: `str(chat_id)`. */
  function ChatKey(chat: int): string {
    IntString(chat)
  }

  /** A stored chat record; a field is `None` when its key is absent from the JSON object.
      The same shape describes the keyword arguments of a partial update. */
  datatype Record = Record(start: Option<string>, end: Option<string>, normalize: Option<bool>)

  const NoFields: Record := Record(None, None, None)

  /** The whole state document. */
  type Store = map<string, Record>

  /** What a reader sees: `get_chat_state` with the `normalize` default filled in. */
  datatype ChatState = ChatState(start: Option<string>, end: Option<string>, normalize: bool)

  const DefaultState: ChatState := ChatState(None, None, false)

  /** The two date keys `set_date` is called with. */
  datatype DateKey = Start | End

  /** `load_state`: a missing or unparseable file (`None`) reads as the empty document. */
  function LoadState(file: Option<Store>): (st: Store)
    ensures file.None? ==> st == map[]
    ensures file.Some? ==> st == file.value
  {
    file.GetOr(map[])
  }

  /** `state.get(str(chat_id), {})`. */
  function Lookup(st: Store, chat: int): Record {
    if ChatKey(chat) in st then st[ChatKey(chat)] else NoFields
  }

  /** `dict.update`: every field given in `fields` replaces the stored one, the others stay. */
  function Merge(rec: Record, fields: Record): (r: Record)
    ensures fields.start.Some? ==> r.start == fields.start
    ensures fields.start.None? ==> r.start == rec.start
    ensures fields.end.Some? ==> r.end == fields.end
    ensures fields.end.None? ==> r.end == rec.end
    ensures fields.normalize.Some? ==> r.normalize == fields.normalize
    ensures fields.normalize.None? ==> r.normalize == rec.normalize
  {
    Record(
      if fields.start.Some? then fields.start else rec.start,
      if fields.end.Some? then fields.end else rec.end,
      if fields.normalize.Some? then fields.normalize else rec.normalize)
  }

  /** `get_chat_state`: the stored record with `normalize` defaulting to false;
      an unknown chat reads as the default state. */
  function GetChatState(st: Store, chat: int): (v: ChatState)
    ensures ChatKey(chat) !in st ==> v == DefaultState
    ensures ChatKey(chat) in st ==>
      && v.start == st[ChatKey(chat)].start
      && v.end == st[ChatKey(chat)].end
      && (v.normalize <==> st[ChatKey(chat)].normalize == Some(true))
  {
    var rec := Lookup(st, chat);
    ChatState(rec.start, rec.end, rec.normalize.GetOr(false))
  }

  /** `set_chat_state`: merges `fields` into the chat's record (creating it when absent)
      and stores the record back; no other key of the document changes. */
  function SetChatState(st: Store, chat: int, fields: Record): (st': Store)
    ensures st'.Keys == st.Keys + {ChatKey(chat)}
    ensures forall k :: k in st && k != ChatKey(chat) ==> st'[k] == st[k]
    ensures st'[ChatKey(chat)] == Merge(Lookup(st, chat), fields)
  {
    st[ChatKey(chat) := Merge(Lookup(st, chat), fields)]
  }

  /** `set_date`: stores `value` under "start" or "end". */
  function SetDate(st: Store, chat: int, key: DateKey, value: string): (st': Store)
    ensures var v, v' := GetChatState(st, chat), GetChatState(st', chat);
      && v'.start == (if key == Start then Some(value) else v.start)
      && v'.end == (if key == End then Some(value) else v.end)
      && v'.normalize == v.normalize
    ensures forall other :: other != chat ==> GetChatState(st', other) == GetChatState(st, other)
  {
    var fields := match key
      case Start => Record(Some(value), None, None)
      case End => Record(None, Some(value), None);
    OthersUnaffected(st, chat, fields);
    SetChatState(st, chat, fields)
  }

  /** `get_dates`: the stored `(start, end)`, each `None` when unset. */
  function GetDates(st: Store, chat: int): (r: (Option<string>, Option<string>))
    ensures ChatKey(chat) !in st ==> r == (None, None)
    ensures ChatKey(chat) in st ==> r == (st[ChatKey(chat)].start, st[ChatKey(chat)].end)
  {
    var v := GetChatState(st, chat);
    (v.start, v.end)
  }

  /** `get_normalize`: true only for a chat whose stored flag is true. */
  function GetNormalize(st: Store, chat: int): (r: bool)
    ensures r <==> ChatKey(chat) in st && st[ChatKey(chat)].normalize == Some(true)
  {
    GetChatState(st, chat).normalize
  }

  /** `toggle_normalize`: flips the flag, persists it, and returns the new value. */
  function ToggleNormalize(st: Store, chat: int): (r: (bool, Store))
    ensures r.0 == !GetNormalize(st, chat)
    ensures GetNormalize(r.1, chat) == r.0
    ensures GetDates(r.1, chat) == GetDates(st, chat)
    ensures forall other :: other != chat ==> GetChatState(r.1, other) == GetChatState(st, other)
  {
    var current := GetNormalize(st, chat);
    OthersUnaffected(st, chat, Record(None, None, Some(!current)));
    (!current, SetChatState(st, chat, Record(None, None, Some(!current))))
  }

  /** Before anything is saved (missing or unreadable file) every chat reads as the default. */
  lemma ReadFreshDefaults(chat: int)
    ensures GetChatState(LoadState(None), chat) == DefaultState
    ensures GetDates(LoadState(None), chat) == (None, None)
    ensures !GetNormalize(LoadState(None), chat)
  {
  }

  /** Reading back what was just saved: given fields win, the rest of the chat's
      state is what it was before the write. */
  lemma ReadAfterSet(st: Store, chat: int, fields: Record)
    ensures var v, v' := GetChatState(st, chat), GetChatState(SetChatState(st, chat, fields), chat);
      && v'.start == (if fields.start.Some? then fields.start else v.start)
      && v'.end == (if fields.end.Some? then fields.end else v.end)
      && v'.normalize == (if fields.normalize.Some? then fields.normalize.value else v.normalize)
  {
  }

  /** A write for one chat is invisible to every other chat. */
  lemma OtherChatsUnaffected(st: Store, chat: int, fields: Record, other: int)
    requires other != chat
    ensures GetChatState(SetChatState(st, chat, fields), other) == GetChatState(st, other)
  {
    if ChatKey(other) == ChatKey(chat) {
      IntStringInjective(other, chat);
    }
  }

  /** `OtherChatsUnaffected` for every other chat at once. */
  lemma OthersUnaffected(st: Store, chat: int, fields: Record)
    ensures forall other :: other != chat ==>
      GetChatState(SetChatState(st, chat, fields), other) == GetChatState(st, other)
  {
    forall other | other != chat
      ensures GetChatState(SetChatState(st, chat, fields), other) == GetChatState(st, other)
    {
      OtherChatsUnaffected(st, chat, fields, other);
    }
  }

  /** Writes for two different chats commute and both survive, in whichever order they land. */
  lemma SetCommutes(st: Store, c1: int, f1: Record, c2: int, f2: Record)
    requires c1 != c2
    ensures SetChatState(SetChatState(st, c1, f1), c2, f2) == SetChatState(SetChatState(st, c2, f2), c1, f1)
    ensures GetChatState(SetChatState(SetChatState(st, c1, f1), c2, f2), c1)
         == GetChatState(SetChatState(st, c1, f1), c1)
  {
    if ChatKey(c1) == ChatKey(c2) {
      IntStringInjective(c1, c2);
    }
    OtherChatsUnaffected(SetChatState(st, c1, f1), c2, f2, c1);
  }

  /** Repeating the same write changes nothing. */
  lemma SetIdempotent(st: Store, chat: int, fields: Record)
    ensures SetChatState(SetChatState(st, chat, fields), chat, fields) == SetChatState(st, chat, fields)
  {
  }

  /** Toggling twice restores what every chat reads, the toggled one included. */
  lemma ToggleTwice(st: Store, chat: int, other: int)
    ensures var st2 := ToggleNormalize(ToggleNormalize(st, chat).1, chat).1;
      GetChatState(st2, chat) == GetChatState(st, chat) && GetChatState(st2, other) == GetChatState(st, other)
  {
    var st1 := ToggleNormalize(st, chat).1;
    var st2 := ToggleNormalize(st1, chat).1;
    if other != chat {
      OtherChatsUnaffected(st, chat, Record(None, None, Some(!GetNormalize(st, chat))), other);
      OtherChatsUnaffected(st1, chat, Record(None, None, Some(!GetNormalize(st1, chat))), other);
    }
  }

  /** A fresh chat stores a start date and toggles normalisation twice: the flag is back
      to false and the date is kept. */
  lemma StartThenToggleTwice(chat: int)
    ensures var st := SetDate(LoadState(None), chat, Start, "2023-01-01");
      var st2 := ToggleNormalize(ToggleNormalize(st, chat).1, chat).1;
      GetChatState(st2, chat) == ChatState(Some("2023-01-01"), None, false)
  {
    var st := SetDate(LoadState(None), chat, Start, "2023-01-01");
    ToggleTwice(st, chat, chat);
  }
}
