/**
 * The message logger: which delete and edit events are logged, and the
 * texts a logged event shows.
 */
module Logger {
  import opened Wrappers

  /** What a delete or edit event carries about a message. */
  datatype Message = Message(
    partial: bool,
    inGuild: bool,
    channelId: string,
    authorId: string,
    authorTag: Option<string>,
    content: string)

  datatype LogField = LogField(name: string, value: string, inline: bool)

  /** An embed sent to the log channel; the timestamp and the avatar icon are left out. */
  datatype LogEntry = LogEntry(color: string, title: string, description: Option<string>, fields: seq<LogField>, footer: string)

  const NoTextContent: string := "*No text content*"

  /** `content || '*No text content*'`. */
  function ContentText(content: string): (text: string)
    ensures text != ""
    ensures content == "" ==> text == NoTextContent
    ensures content != "" ==> text == content
  {
    if content == "" then NoTextContent else content
  }

  /** `User: ${author?.tag || 'Unknown User'}`. */
  function FooterText(tag: Option<string>): string
  {
    "User: " + (if tag.Some? && tag.value != "" then tag.value else "Unknown User")
  }

  /** `<#${id}>`. */
  function ChannelMention(channelId: string): string
  {
    "<#" + channelId + ">"
  }

  /**
   * The delete handler: the guards, then the red "Message Deleted" entry;
   * `logChannelFound` stands for the cache lookup of the log channel.
   */
  function DeleteLog(m: Message, ignoredChannels: seq<string>, ignoredUsers: seq<string>, logChannelFound: bool): (r: Option<LogEntry>)
    ensures r.None? <==> (m.partial || !m.inGuild || m.channelId in ignoredChannels || m.authorId in ignoredUsers
                          || !logChannelFound)
    ensures r.Some? ==> (r.value.description == Some(ContentText(m.content))
                         && r.value.fields == [LogField("Channel", ChannelMention(m.channelId), true)]
                         && r.value.footer == FooterText(m.authorTag))
  {
    if m.partial || !m.inGuild then None
    else if m.channelId in ignoredChannels then None
    else if m.authorId in ignoredUsers then None
    else if !logChannelFound then None
    else Some(LogEntry("Red", "Message Deleted", Some(ContentText(m.content)),
                       [LogField("Channel", ChannelMention(m.channelId), true)], FooterText(m.authorTag)))
  }

  /** The edit handler: the guards, then the "Message Edited" entry; the channel and author are the old side's. */
  function EditLog(before: Message, after: Message, ignoredChannels: seq<string>, ignoredUsers: seq<string>,
                   logChannelFound: bool): (r: Option<LogEntry>)
    ensures r.None? <==> (before.partial || after.partial || !before.inGuild || before.content == after.content
                          || before.channelId in ignoredChannels || before.authorId in ignoredUsers
                          || !logChannelFound)
    ensures r.Some? ==> (r.value.description == None
                         && r.value.fields == [LogField("Before", ContentText(before.content), false),
                                               LogField("After", ContentText(after.content), false),
                                               LogField("Channel", ChannelMention(before.channelId), false)]
                         && r.value.footer == FooterText(before.authorTag))
  {
    if before.partial || after.partial || !before.inGuild || before.content == after.content then None
    else if before.channelId in ignoredChannels then None
    else if before.authorId in ignoredUsers then None
    else if !logChannelFound then None
    else Some(LogEntry("Yellow", "Message Edited", None,
                       [LogField("Before", ContentText(before.content), false),
                        LogField("After", ContentText(after.content), false),
                        LogField("Channel", ChannelMention(before.channelId), false)],
                       FooterText(before.authorTag)))
  }

  /**
   * A logged edit always shows two different texts, unless one side's
   * content is literally the placeholder and the other side is empty.
   */
  lemma EditLogShowsAChange(before: Message, after: Message, ignoredChannels: seq<string>, ignoredUsers: seq<string>,
                            found: bool)
    requires EditLog(before, after, ignoredChannels, ignoredUsers, found).Some?
    requires before.content != NoTextContent && after.content != NoTextContent
    ensures var fields := EditLog(before, after, ignoredChannels, ignoredUsers, found).value.fields;
      fields[0].value != fields[1].value
  {
  }

  /** A missing or empty tag is shown as "Unknown User"; a present one as itself. */
  lemma FooterFallback(tag: Option<string>)
    ensures tag.None? || tag == Some("") ==> FooterText(tag) == "User: Unknown User"
    ensures tag.Some? && tag.value != "" ==> FooterText(tag) == "User: " + tag.value
  {
  }

  /** An ignored user's deletions and edits are never logged, whatever the message. */
  lemma IgnoredUserNeverLogged(m: Message, other: Message, ignoredChannels: seq<string>, ignoredUsers: seq<string>,
                                found: bool)
    requires m.authorId in ignoredUsers
    ensures DeleteLog(m, ignoredChannels, ignoredUsers, found) == None
    ensures EditLog(m, other, ignoredChannels, ignoredUsers, found) == None
  {
  }
}
