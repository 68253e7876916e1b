/**
 * Properties of the placeholder rendering of Message.getMessage: the chat
 * text is inserted verbatim, the timestamp placeholder leaves a stray '$',
 * and the direction marker follows the resolved type.
 */
module MessageRendering {
  import GeneralUtils
  import opened JavaText
  import opened Messages

  /**
   * In a template that is a single placeholder "$w$", the only placeholder
   * that is mentioned is "$w$" itself.
   */
  lemma SinglePlaceholder(w: string)
    requires DollarFree(w)
    ensures var f := "$" + w + "$";
      && (Contains(f, "$dir$") <==> w == "dir")
      && (Contains(f, "$timestamp$") <==> w == "timestamp")
      && (Contains(f, "$date$") <==> w == "date")
      && (Contains(f, "$time$") <==> w == "time")
      && (Contains(f, "$nick$") <==> w == "nick")
      && (Contains(f, "$uid$") <==> w == "uid")
      && (Contains(f, "$message$") <==> w == "message")
  {
    assert "$" + "dir" + "$" == "$dir$" && "$" + "timestamp" + "$" == "$timestamp$";
    assert "$" + "date" + "$" == "$date$" && "$" + "time" + "$" == "$time$";
    assert "$" + "nick" + "$" == "$nick$" && "$" + "uid" + "$" == "$uid$";
    assert "$" + "message" + "$" == "$message$";
    PlaceholderContains(w, "dir");
    PlaceholderContains(w, "timestamp");
    PlaceholderContains(w, "date");
    PlaceholderContains(w, "time");
    PlaceholderContains(w, "nick");
    PlaceholderContains(w, "uid");
    PlaceholderContains(w, "message");
  }

  /** Replacing a whole string by itself as target yields the replacement. */
  lemma ReplaceWhole(target: string, value: string)
    requires target != []
    ensures Replace(target, target, value) == value
  {
    assert target[|target|..] == [];
  }

  /** A template without '$' is returned unchanged. */
  lemma RenderPlainTemplate(format: string, m: Message, configuredUser: User, date: string, time: string)
    requires DollarFree(format)
    ensures Render(format, m, configuredUser, date, time) == format
  {
    DollarFreeHasNoPlaceholder(format, "$dir$");
    DollarFreeHasNoPlaceholder(format, "$timestamp$");
    DollarFreeHasNoPlaceholder(format, "$date$");
    DollarFreeHasNoPlaceholder(format, "$time$");
    DollarFreeHasNoPlaceholder(format, "$nick$");
    DollarFreeHasNoPlaceholder(format, "$uid$");
    DollarFreeHasNoPlaceholder(format, "$message$");
  }

  /** The chat text is substituted last, so it appears verbatim even when it itself holds placeholders. */
  lemma RenderMessageVerbatim(m: Message, configuredUser: User, date: string, time: string)
    ensures Render("$message$", m, configuredUser, date, time) == m.chatMessage
  {
    SinglePlaceholder("message");
    assert "$" + "message" + "$" == "$message$";
    ReplaceWhole("$message$", m.chatMessage);
  }

  /** Replacing the pattern "$timestamp" in "$timestamp$" leaves the closing '$' behind. */
  lemma ReplaceTimestampPattern(digits: string)
    ensures Replace("$timestamp$", "$timestamp", digits) == digits + "$"
  {
    var f := "$timestamp$";
    assert "$timestamp" <= f && f[10..] == "$";
    assert !("$timestamp" <= "$") && "$"[1..] == [];
  }

  /** "$timestamp$" is replaced through the pattern "$timestamp": the number is followed by a stray '$'. */
  lemma RenderTimestampKeepsDollar(m: Message, configuredUser: User, date: string, time: string)
    ensures Render("$timestamp$", m, configuredUser, date, time) == LongToString(m.timestamp) + "$"
  {
    var f := "$timestamp$";
    var digits := LongToString(m.timestamp);
    var marker := DirectionMarker(ResolveType(m, configuredUser));
    SinglePlaceholder("timestamp");
    assert "$" + "timestamp" + "$" == f;
    assert ReplaceIf(f, "$dir$", f, "$dir$", marker) == f;
    ReplaceTimestampPattern(digits);
    assert ReplaceIf(f, "$timestamp$", f, "$timestamp", digits) == digits + "$";
    NoLaterPlaceholders(digits + "$", m, date, time);
  }

  /** Past the timestamp step, "$timestamp$" mentions none of the remaining placeholders. */
  lemma NoLaterPlaceholders(out: string, m: Message, date: string, time: string)
    ensures var f := "$timestamp$";
      var out3 := ReplaceIf(f, "$date$", out, "$date$", date);
      var out4 := ReplaceIf(f, "$time$", out3, "$time$", time);
      var out5 := ReplaceIf(f, "$nick$", out4, "$nick$", m.user.nick);
      var out6 := ReplaceIf(f, "$uid$", out5, "$uid$", m.user.uid);
      ReplaceIf(f, "$message$", out6, "$message$", m.chatMessage) == out
  {
    SinglePlaceholder("timestamp");
    assert "$" + "timestamp" + "$" == "$timestamp$";
  }

  /** "$dir$" renders the marker of the resolved direction. */
  lemma RenderDirection(m: Message, configuredUser: User, date: string, time: string)
    ensures Render("$dir$", m, configuredUser, date, time) == DirectionMarker(ResolveType(m, configuredUser))
  {
    SinglePlaceholder("dir");
    assert "$" + "dir" + "$" == "$dir$";
    ReplaceWhole("$dir$", DirectionMarker(ResolveType(m, configuredUser)));
  }

  /** A system notice shows the system marker "><" unless the local user is the system user. */
  lemma SystemNoticeDirection(text: string, now: GeneralUtils.Long, configuredUser: User, date: string, time: string)
    requires configuredUser != SystemUser
    ensures Render("$dir$", BuildSystemMessage(text, now), configuredUser, date, time) == "><"
  {
    RenderDirection(BuildSystemMessage(text, now), configuredUser, date, time);
  }
}
