/**
 * Chat messages: the fuzzy equality used to suppress repeated messages and
 * the rendering of a message through a placeholder template.
 */
module Messages {
  import opened Wrappers
  import opened GeneralUtils
  import opened JavaText

  /** A chat participant: an identifier (in its textual form) and a display name. */
  datatype User = User(uid: string, nick: string)

  /** The well-known user that transport notices are sent as. */
  const SystemUser: User := User("system", "System")

  /** A user is the system user when it carries the system user's identifier. */
  predicate IsSystem(u: User)
  {
    u.uid == SystemUser.uid
  }

  /** Direction of a message; `None` in the `msgType` field of a message stands for a null type. */
  datatype MessageType = NONE | SYSTEM | IN | OUT

  /** Two messages further apart than this many milliseconds are never the same message. */
  const SLOW_DOWN_RECEIVE: int := 10 * SECONDS

  datatype Message = Message(user: User, chatMessage: string, timestamp: Long, msgType: Option<MessageType>)

  /** A message built with the builder's defaults: stamped `now`, of type IN. */
  function BuildMessage(user: User, chatMessage: string, now: Long): (m: Message)
    ensures m.user == user && m.chatMessage == chatMessage
    ensures m.timestamp == now && m.msgType == Some(IN)
  {
    Message(user, chatMessage, now, Some(IN))
  }

  /** A notice from the system user carrying `text`, with the default type IN. */
  function BuildSystemMessage(text: string, now: Long): (m: Message)
    ensures IsSystem(m.user) && m.chatMessage == text
    ensures m.timestamp == now && m.msgType == Some(IN)
  {
    BuildMessage(SystemUser, text, now)
  }

  function Max(a: int, b: int): int { if a >= b then a else b }
  function Min(a: int, b: int): int { if a <= b then a else b }

  /** Distance between two instants. */
  function Gap(a: int, b: int): nat { if a >= b then a - b else b - a }

  /**
   * Message.equals: `another` must be a message (None stands for null or an
   * object of another class), the distance of the timestamps, computed in
   * 64-bit arithmetic, at most SLOW_DOWN_RECEIVE, the user identifiers equal
   * and the texts equal ignoring case.
   */
  function Equals(self: Message, another: Option<Message>): (r: bool)
    ensures r <==> another.Some? && WrapLong(Gap(self.timestamp, another.value.timestamp)) <= SLOW_DOWN_RECEIVE
                   && another.value.user.uid == self.user.uid
                   && UpperCase(another.value.chatMessage) == UpperCase(self.chatMessage)
  {
    match another
    case None => false
    case Some(msg) =>
      var newest := Max(msg.timestamp, self.timestamp);
      var oldest := Min(msg.timestamp, self.timestamp);
      if WrapLong(newest - oldest) > SLOW_DOWN_RECEIVE then false
      else
        EqualsIgnoreCaseIsUpperCaseEquality(msg.chatMessage, self.chatMessage);
        msg.user.uid == self.user.uid && EqualsIgnoreCase(msg.chatMessage, self.chatMessage)
  }

  /** The equality does not depend on which message it is asked of. */
  lemma EqualsIsSymmetric(a: Message, b: Message)
    ensures Equals(a, Some(b)) == Equals(b, Some(a))
  {
  }

  /** A gap of exactly SLOW_DOWN_RECEIVE still counts as the same message; one millisecond more does not. */
  lemma EqualsWindowIsInclusive(u: User, text: string, t: Long)
    requires t + SLOW_DOWN_RECEIVE + 1 < 0x8000_0000_0000_0000
    ensures Equals(Message(u, text, t, None), Some(Message(u, text, t + SLOW_DOWN_RECEIVE, None)))
    ensures !Equals(Message(u, text, t, None), Some(Message(u, text, t + SLOW_DOWN_RECEIVE + 1, None)))
  {
  }

  /** The equality is not transitive: three messages 10 s apart chain, but the outer two differ. */
  lemma EqualsIsNotTransitive()
    ensures var u := User("u1", "nick");
            var a, b, c := BuildMessage(u, "hi", 0), BuildMessage(u, "HI", 10000), BuildMessage(u, "hi", 20000);
            Equals(a, Some(b)) && Equals(b, Some(c)) && !Equals(a, Some(c))
  {
    var u := User("u1", "nick");
    assert UpperCase("hi") == "HI" == UpperCase("HI");
  }

  /** While the distance of the timestamps fits in a `long`, the window is the plain distance. */
  lemma EqualsWithinLongRange(a: Message, b: Message)
    requires Gap(a.timestamp, b.timestamp) <= LONG_MAX
    ensures Equals(a, Some(b)) <==>
      (Gap(a.timestamp, b.timestamp) <= SLOW_DOWN_RECEIVE
       && b.user.uid == a.user.uid && UpperCase(b.chatMessage) == UpperCase(a.chatMessage))
  {
  }

  /**
   * Timestamps more than LONG_MAX apart wrap to a negative distance, which
   * passes the window test: a message at 0 equals one at the smallest `long`.
   */
  lemma EqualsAcrossLongWrap(u: User, text: string)
    ensures Equals(Message(u, text, 0, None), Some(Message(u, text, LONG_MIN, None)))
  {
    WrapLongAboveMax(Gap(0, LONG_MIN));
  }

  /** Nothing that is not a message equals a message. */
  lemma EqualsNullIsFalse(m: Message)
    ensures !Equals(m, None)
  {
  }

  /**
   * Type resolution of getMessage: the configured user's messages are OUT,
   * otherwise the system user's are SYSTEM, otherwise the stored type is kept
   * and a null type becomes NONE.
   */
  function ResolveType(m: Message, configuredUser: User): (t: MessageType)
    ensures m.user == configuredUser ==> t == OUT
    ensures m.user != configuredUser && IsSystem(m.user) ==> t == SYSTEM
    ensures m.user != configuredUser && !IsSystem(m.user) ==>
              t == (if m.msgType.None? then NONE else m.msgType.value)
  {
    var t1 := if IsSystem(m.user) then Some(SYSTEM) else m.msgType;
    var t2 := if m.user == configuredUser then Some(OUT) else t1;
    if t2.None? then NONE else t2.value
  }

  /** The `$dir$` marker of each direction. */
  function DirectionMarker(t: MessageType): (r: string)
    ensures |r| == 2 && DollarFree(r)
  {
    match t
    case SYSTEM => "><"
    case IN => ">>"
    case OUT => "<<"
    case NONE => "<>"
  }

  /** Different directions have different markers. */
  lemma DirectionMarkersDiffer(a: MessageType, b: MessageType)
    requires a != b
    ensures DirectionMarker(a) != DirectionMarker(b)
  {
  }

  /** Replaces `target` in `out` when the original template mentions `placeholder`. */
  function ReplaceIf(format: string, placeholder: string, out: string, target: string, value: string): string
    requires target != []
  {
    if Contains(format, placeholder) then Replace(out, target, value) else out
  }

  /**
   * The text getMessage produces for template `format`, with the rendered date
   * and time of the timestamp supplied by the caller. Substitution order:
   * direction, timestamp (through the pattern "$timestamp"), date, time, nick,
   * uid and the chat text last.
   */
  function Render(format: string, m: Message, configuredUser: User, date: string, time: string): string
  {
    var out1 := ReplaceIf(format, "$dir$", format, "$dir$", DirectionMarker(ResolveType(m, configuredUser)));
    var out2 := ReplaceIf(format, "$timestamp$", out1, "$timestamp", LongToString(m.timestamp));
    var out3 := ReplaceIf(format, "$date$", out2, "$date$", date);
    var out4 := ReplaceIf(format, "$time$", out3, "$time$", time);
    var out5 := ReplaceIf(format, "$nick$", out4, "$nick$", m.user.nick);
    var out6 := ReplaceIf(format, "$uid$", out5, "$uid$", m.user.uid);
    ReplaceIf(format, "$message$", out6, "$message$", m.chatMessage)
  }

  /**
   * Message.getMessage: resolves the type, writes it back into the message
   * (returned as `updated`) and substitutes the placeholders one after the other.
   */
  method GetMessage(m: Message, format: string, configuredUser: User, date: string, time: string)
    returns (out: string, updated: Message)
    ensures updated == m.(msgType := Some(ResolveType(m, configuredUser)))
    ensures out == Render(format, m, configuredUser, date, time)
  {
    var t := if IsSystem(m.user) then Some(SYSTEM) else m.msgType;
    t := if m.user == configuredUser then Some(OUT) else t;
    var resolved := if t.None? then NONE else t.value;
    updated := m.(msgType := Some(resolved));
    out := format;
    if Contains(format, "$dir$") {
      out := Replace(out, "$dir$", DirectionMarker(resolved));
    }
    assert out == ReplaceIf(format, "$dir$", format, "$dir$", DirectionMarker(resolved));
    ghost var out1 := out;
    if Contains(format, "$timestamp$") {
      out := Replace(out, "$timestamp", LongToString(m.timestamp));
    }
    assert out == ReplaceIf(format, "$timestamp$", out1, "$timestamp", LongToString(m.timestamp));
    ghost var out2 := out;
    if Contains(format, "$date$") {
      out := Replace(out, "$date$", date);
    }
    assert out == ReplaceIf(format, "$date$", out2, "$date$", date);
    ghost var out3 := out;
    if Contains(format, "$time$") {
      out := Replace(out, "$time$", time);
    }
    assert out == ReplaceIf(format, "$time$", out3, "$time$", time);
    ghost var out4 := out;
    if Contains(format, "$nick$") {
      out := Replace(out, "$nick$", m.user.nick);
    }
    assert out == ReplaceIf(format, "$nick$", out4, "$nick$", m.user.nick);
    ghost var out5 := out;
    if Contains(format, "$uid$") {
      out := Replace(out, "$uid$", m.user.uid);
    }
    assert out == ReplaceIf(format, "$uid$", out5, "$uid$", m.user.uid);
    ghost var out6 := out;
    if Contains(format, "$message$") {
      out := Replace(out, "$message$", m.chatMessage);
    }
    assert out == ReplaceIf(format, "$message$", out6, "$message$", m.chatMessage);
  }
}
