/** The text convention shared by the server's notices, the client's own chat lines and the
    client's classifier. */
module Protocol {
  import opened Wire
  import opened App
  import opened Handler
  import opened Connection

  lemma NoticeShape(name: string, middle: string)
    ensures IsSystem("-- " + name + middle + " --")
  {
    var t := "-- " + name + middle + " --";
    assert t[..2] == "--";
    assert t[|t| - 2..] == "--";
  }

  /** Both server notices are system-shaped, so every client stores them whole under "System"
      and leaves its colours alone, whatever the name. */
  lemma NoticesStoredAsSystem(v: ChatView, name: string, drawn: Color)
    ensures Step(v, Received(JoinNotice(name)), drawn)
            == v.(messages := v.messages + [("System", JoinNotice(name).text)])
    ensures Step(v, Received(ExitNotice(name)), drawn)
            == v.(messages := v.messages + [("System", ExitNotice(name).text)])
  {
    NoticeShape(name, " is entering.");
    assert JoinNotice(name).text == "-- " + name + " is entering." + " --";
    NoticeShape(name, " is exited.");
    assert ExitNotice(name).text == "-- " + name + " is exited." + " --";
  }

  /** The chat line one client sends, relayed verbatim, is stored by the receiving client as the
      sender's name and message, and drawn as the very text that was sent, provided the name
      holds no separator and the line is not system-shaped. */
  lemma ChatLineRoundTrip(v: ChatView, name: string, message: string, drawn: Color)
    requires !HasSeparator(name)
    requires !IsSystem(Format(name, message))
    ensures Step(v, Received(Text(Format(name, message))), drawn).messages == v.messages + [(name, message)]
    ensures Render(Step(v, Received(Text(Format(name, message))), drawn).messages, v.colors)[|v.messages|].text
            == Format(name, message)
  {
    ClassifyRoundTrip(name, message);
  }
}
