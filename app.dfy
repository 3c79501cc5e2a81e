/** The chat client's state and the actions of its panels. */
module App {
  import opened Wire

  datatype Color = Rgb(r: byte, g: byte, b: byte)

  /** The colour of a name that has none assigned. */
  const WHITE: Color := Rgb(255, 255, 255)

  /** The client's outbound channel to its writer task: everything sent into it so far, and
      whether its receiving end is gone (then every send fails). */
  datatype Outbound = Outbound(sent: seq<Message>, closed: bool)

  /** `tx.send(m)`: the message is queued unless the receiver is gone. */
  function Send(ch: Outbound, m: Message): Outbound
  {
    if ch.closed then ch else ch.(sent := ch.sent + [m])
  }

  /** The chat line convention, `"<name>: <message>"`. */
  function Format(name: string, msg: string): string
  {
    name + ": " + msg
  }

  /** The channel after `send_name`: the name goes out verbatim, and a failed send drops the
      sender. */
  function NameSent(tx: Option<Outbound>, name: string): Option<Outbound>
  {
    match tx
    case None => None
    case Some(ch) => if ch.closed then None else Some(Send(ch, Text(name)))
  }

  /** One drawn line of the message panel. */
  datatype Line = Line(color: Color, text: string)

  /** The lines the message panel draws for the stored pairs. */
  function Render(messages: seq<(string, string)>, colors: map<string, Color>): (lines: seq<Line>)
    ensures |lines| == |messages|
    ensures forall k :: 0 <= k < |messages| ==>
              lines[k].text == Format(messages[k].0, messages[k].1)
    ensures forall k :: 0 <= k < |messages| ==>
              lines[k].color == if messages[k].0 in colors then colors[messages[k].0] else WHITE
  {
    if messages == [] then []
    else
      var (name, msg) := messages[0];
      [Line(if name in colors then colors[name] else WHITE, Format(name, msg))]
      + Render(messages[1..], colors)
  }

  /** One frame's worth of user input: typing into a text field, or pressing the button (or
      Enter) of the panel on screen. */
  datatype Event = EditName(text: string) | ConnectPressed | EditMessage(text: string) | SendPressed

  /** What one frame shows: the welcome panel, or the chat with its drawn lines. */
  datatype Screen = Welcome | Chat(lines: seq<Line>)

  class ChatApp {
    var name: string
    var message: string
    var messages: seq<(string, string)>
    var tx: Option<Outbound>
    var color: Color
    var connected: bool
    var nameColors: map<string, Color>

    /** `ChatApp::default`; the random colour is a parameter. */
    constructor (color: Color)
      ensures name == "" && message == "" && messages == [] && tx == None
      ensures this.color == color && !connected && nameColors == map[]
    {
      name, message, messages, tx := "", "", [], None;
      this.color, connected, nameColors := color, false, map[];
    }

    /** `InputPanel::send_message`: with a sender and a non-empty input, send one chat line and
      clear the input; a failed send is ignored and the sender kept. Otherwise nothing. */
    method SendMessage()
      modifies this`message, this`tx
      ensures old(tx).None? || old(message) == "" ==> message == old(message) && tx == old(tx)
      ensures old(tx).Some? && old(message) != "" ==>
                message == "" && tx == Some(Send(old(tx).value, Text(Format(name, old(message)))))
    {
      if tx.Some? {
        if message != "" {
          var line := Format(name, message);
          tx := Some(Send(tx.value, Text(line)));
          message := "";
        }
      }
    }

    /** `WelcomePanel::send_name`: send the name verbatim; drop the sender when that fails. */
    method SendName()
      modifies this`tx
      ensures old(tx).None? ==> tx == None
      ensures old(tx).Some? && old(tx).value.closed ==> tx == None
      ensures old(tx).Some? && !old(tx).value.closed ==>
                tx == Some(old(tx).value.(sent := old(tx).value.sent + [Text(name)]))
    {
      if tx.Some? {
        var ch := tx.value;
        if ch.closed {
          tx := None;
        } else {
          tx := Some(Send(ch, Text(name)));
        }
      }
    }

    /** The Connect button (or Enter) of `WelcomePanel::show`: only a non-empty name connects,
      and it connects even when there is no sender. */
    method Connect()
      modifies this`connected, this`tx
      ensures name == "" ==> connected == old(connected) && tx == old(tx)
      ensures name != "" ==> connected && tx == NameSent(old(tx), name)
    {
      if name != "" {
        connected := true;
        SendName();
      }
    }

    /** `ChatApp::update` for one frame: the welcome panel while not connected, otherwise the
      input panel and the message panel. */
    method Update(ev: Event) returns (screen: Screen)
      modifies this`name, this`message, this`connected, this`tx
      ensures screen == if old(connected) then Chat(Render(messages, nameColors)) else Welcome
      ensures !old(connected) ==> message == old(message)
      ensures !old(connected) && ev.EditName? ==>
                name == ev.text && connected == old(connected) && tx == old(tx)
      ensures !old(connected) && ev.ConnectPressed? ==>
                name == old(name) && connected == (name != "") &&
                tx == if name != "" then NameSent(old(tx), name) else old(tx)
      ensures !old(connected) && (ev.EditMessage? || ev.SendPressed?) ==>
                name == old(name) && connected == old(connected) && tx == old(tx)
      ensures old(connected) ==> name == old(name) && connected
      ensures old(connected) && ev.EditMessage? ==> message == ev.text && tx == old(tx)
      ensures old(connected) && ev.SendPressed? && (old(tx).None? || old(message) == "") ==>
                message == old(message) && tx == old(tx)
      ensures old(connected) && ev.SendPressed? && old(tx).Some? && old(message) != "" ==>
                message == "" && tx == Some(Send(old(tx).value, Text(Format(name, old(message)))))
      ensures old(connected) && (ev.EditName? || ev.ConnectPressed?) ==>
                message == old(message) && tx == old(tx)
    {
      if !connected {
        match ev {
          case EditName(text) => name := text;
          case ConnectPressed => Connect();
          case _ =>
        }
        screen := Welcome;
      } else {
        match ev {
          case EditMessage(text) => message := text;
          case SendPressed => SendMessage();
          case _ =>
        }
        screen := Chat(Render(messages, nameColors));
      }
    }
  }
}
