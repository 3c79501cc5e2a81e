/** The client's reader task: every inbound text frame is classified as a system notice, a
    chat line split into name and message, or dropped, and stored with the sender's colour. */
module Connection {
  import opened Wire
  import opened App

  predicate StartsWith(s: string, prefix: string)
  {
    |prefix| <= |s| && s[..|prefix|] == prefix
  }

  predicate EndsWith(s: string, suffix: string)
  {
    |suffix| <= |s| && s[|s| - |suffix|..] == suffix
  }

  /** The client's test for a join or exit notice. */
  predicate IsSystem(text: string)
  {
    StartsWith(text, "--") && EndsWith(text, "--")
  }

  /** `s` holds the separator `": "` at position `j`. */
  predicate SeparatorAt(s: string, j: int)
  {
    0 <= j && j + 1 < |s| && s[j] == ':' && s[j + 1] == ' '
  }

  ghost predicate HasSeparator(s: string)
  {
    exists j :: SeparatorAt(s, j)
  }

  /** The first position at or after `from` where `s` holds the separator. */
  function FindSeparator(s: string, from: nat): (r: Option<nat>)
    ensures r.Some? ==> from <= r.value && SeparatorAt(s, r.value)
    ensures forall j :: from <= j && (r.None? || j < r.value) ==> !SeparatorAt(s, j)
    decreases |s| - from
  {
    if from + 1 >= |s| then None
    else if s[from] == ':' && s[from + 1] == ' ' then Some(from)
    else FindSeparator(s, from + 1)
  }

  /** `splitn(2, ": ")` when it yields two parts: the text before the first separator and the
      whole remainder after it. */
  function SplitOnce(text: string): Option<(string, string)>
  {
    match FindSeparator(text, 0)
    case None => None
    case Some(i) => Some((text[..i], text[i + 2..]))
  }

  /** How the reader task treats one text frame. */
  datatype Kind = System(text: string) | User(name: string, msg: string) | Dropped

  function Classify(text: string): Kind
  {
    if IsSystem(text) then System(text)
    else match SplitOnce(text)
      case None => Dropped
      case Some((name, msg)) => User(name, msg)
  }

  /** Only `Text` frames that arrived without error are looked at. */
  function Inspect(frame: Inbound): Kind
  {
    if frame.Received? && frame.msg.Text? then Classify(frame.msg.text) else Dropped
  }

  /** A system-shaped text is stored whole under the name "System". */
  lemma ClassifySystem(text: string)
    requires IsSystem(text)
    ensures Classify(text) == System(text)
  {
  }

  /** Any other text is kept exactly when it holds the separator; it is then cut at the first
      separator: the name holds none, and name, separator and message give back the text, so
      the message keeps every later separator. */
  lemma ClassifyUser(text: string)
    requires !IsSystem(text)
    ensures Classify(text).User? <==> HasSeparator(text)
    ensures Classify(text).User? ==>
              Format(Classify(text).name, Classify(text).msg) == text && !HasSeparator(Classify(text).name)
  {
    var r := FindSeparator(text, 0);
    if r.Some? {
      var i := r.value;
      var name := text[..i];
      assert text[i..i + 2] == ": ";
      assert name + ": " + text[i + 2..] == text by {
        assert text == text[..i] + text[i..i + 2] + text[i + 2..];
      }
      forall j | SeparatorAt(name, j) ensures false {
        assert SeparatorAt(text, j);
      }
    }
  }

  /** Round trip with the client's own formatting: a name without the separator, in a line that
      is not system-shaped, parses back to exactly the name and the message. */
  lemma ClassifyRoundTrip(name: string, msg: string)
    requires !HasSeparator(name)
    requires !IsSystem(Format(name, msg))
    ensures Classify(Format(name, msg)) == User(name, msg)
  {
    var text := Format(name, msg);
    var n := |name|;
    assert SeparatorAt(text, n);
    forall j | 0 <= j < n ensures !SeparatorAt(text, j) {
      if j + 1 < n {
        assert text[j] == name[j] && text[j + 1] == name[j + 1];
        assert !SeparatorAt(name, j);
      } else {
        assert text[j + 1] == ':';
      }
    }
    var r := FindSeparator(text, 0);
    assert r == Some(n);
    assert text[..n] == name && text[n + 2..] == msg;
  }

  /** A name holding the separator is cut short: the line is attributed to the part of the
      name before its first separator, and the rest of the name is prepended to the message. */
  lemma SeparatorInNameMisparsed(name: string, msg: string)
    requires HasSeparator(name)
    requires !IsSystem(Format(name, msg))
    ensures Classify(Format(name, msg)).User?
    ensures |Classify(Format(name, msg)).name| + 2 <= |name|
    ensures name == Classify(Format(name, msg)).name + ": " + name[|Classify(Format(name, msg)).name| + 2..]
    ensures Classify(Format(name, msg)).msg == name[|Classify(Format(name, msg)).name| + 2..] + ": " + msg
  {
    var text := Format(name, msg);
    var j :| SeparatorAt(name, j);
    assert text[..|name|] == name;
    assert SeparatorAt(text, j) by {
      assert text[j] == name[j] && text[j + 1] == name[j + 1];
    }
    var r := FindSeparator(text, 0);
    assert r.Some? && r.value <= j;
    var i := r.value;
    assert text[i] == name[i] && text[i + 1] == name[i + 1];
    assert Classify(text) == User(text[..i], text[i + 2..]);
    assert text[..i] == name[..i];
    assert name == name[..i] + name[i..i + 2] + name[i + 2..];
    assert name[i..i + 2] == ": ";
    assert text[i + 2..] == name[i + 2..] + ": " + msg;
  }

  /** What the reader task keeps: the stored (name, message) pairs and each name's colour. */
  datatype ChatView = ChatView(messages: seq<(string, string)>, colors: map<string, Color>)

  /** The effect of one inbound frame; `drawn` is the colour drawn for a name not seen before. */
  function Step(v: ChatView, frame: Inbound, drawn: Color): ChatView
  {
    match Inspect(frame)
    case Dropped => v
    case System(text) => v.(messages := v.messages + [("System", text)])
    case User(name, msg) =>
      ChatView(v.messages + [(name, msg)], if name in v.colors then v.colors else v.colors[name := drawn])
  }

  /** The effect of a run of frames, the k-th drawing `palette[k]` for a new name. */
  function Receive(v: ChatView, frames: seq<Inbound>, palette: seq<Color>): ChatView
    requires |palette| == |frames|
    decreases |frames|
  {
    if frames == [] then v else Receive(Step(v, frames[0], palette[0]), frames[1..], palette[1..])
  }

  /** The pair one frame stores, if any. */
  function Entry(frame: Inbound): seq<(string, string)>
  {
    match Inspect(frame)
    case Dropped => []
    case System(text) => [("System", text)]
    case User(name, msg) => [(name, msg)]
  }

  function Entries(frames: seq<Inbound>): seq<(string, string)>
  {
    if frames == [] then [] else Entry(frames[0]) + Entries(frames[1..])
  }

  /** The names of the chat lines among `frames`. */
  function Speakers(frames: seq<Inbound>): set<string>
  {
    if frames == [] then {}
    else (if Inspect(frames[0]).User? then {Inspect(frames[0]).name} else {}) + Speakers(frames[1..])
  }

  /** One frame stores at most one pair, at the end; a system notice leaves the colours alone,
      a dropped or non-text frame changes nothing, and a chat line gives a colour only to a name
      that had none, never touching an existing one. */
  lemma StepEffect(v: ChatView, frame: Inbound, drawn: Color)
    ensures Step(v, frame, drawn).messages == v.messages + Entry(frame)
    ensures Inspect(frame).Dropped? ==> Step(v, frame, drawn) == v
    ensures Inspect(frame).System? ==> Step(v, frame, drawn).colors == v.colors
    ensures forall n :: n in v.colors ==> n in Step(v, frame, drawn).colors && Step(v, frame, drawn).colors[n] == v.colors[n]
    ensures Inspect(frame).User? && Inspect(frame).name !in v.colors ==>
              Step(v, frame, drawn).colors == v.colors[Inspect(frame).name := drawn]
    ensures Inspect(frame).User? && Inspect(frame).name in v.colors ==>
              Step(v, frame, drawn).colors == v.colors
  {
  }

  /** Over a run of frames the stored pairs grow by exactly the pairs of the frames, in order,
      at most one per frame; colours already assigned never change, and the names that gain a
      colour are exactly the new speakers. */
  lemma {:induction false} ReceiveEffect(v: ChatView, frames: seq<Inbound>, palette: seq<Color>)
    requires |palette| == |frames|
    ensures Receive(v, frames, palette).messages == v.messages + Entries(frames)
    ensures |Entries(frames)| <= |frames|
    ensures forall n :: n in v.colors ==>
              n in Receive(v, frames, palette).colors && Receive(v, frames, palette).colors[n] == v.colors[n]
    ensures Receive(v, frames, palette).colors.Keys == v.colors.Keys + Speakers(frames)
    decreases |frames|
  {
    if frames != [] {
      var next := Step(v, frames[0], palette[0]);
      StepEffect(v, frames[0], palette[0]);
      ReceiveEffect(next, frames[1..], palette[1..]);
      assert next.messages + Entries(frames[1..]) == v.messages + Entries(frames);
      assert next.colors.Keys == v.colors.Keys + (if Inspect(frames[0]).User? then {Inspect(frames[0]).name} else {});
    }
  }

  /** `connect` hands the client a fresh, open outbound channel. */
  method Attach(app: ChatApp)
    modifies app`tx
    ensures app.tx == Some(Outbound([], false))
  {
    app.tx := Some(Outbound([], false));
  }

  /** Handling the frame at position `i` and going on is what remains of the run. */
  lemma ReceiveNext(v: ChatView, frames: seq<Inbound>, palette: seq<Color>, i: nat)
    requires |palette| == |frames| && i < |frames|
    ensures Receive(Step(v, frames[i], palette[i]), frames[i + 1..], palette[i + 1..])
            == Receive(v, frames[i..], palette[i..])
  {
    assert frames[i..][1..] == frames[i + 1..] && palette[i..][1..] == palette[i + 1..];
  }

  /** The reader task of `connect`: every inbound item in turn, `palette[k]` being the colour
      drawn if the k-th frame brings a new name. */
  method ReadLoop(app: ChatApp, frames: seq<Inbound>, palette: seq<Color>)
    requires |palette| == |frames|
    modifies app`messages, app`nameColors
    ensures ChatView(app.messages, app.nameColors)
            == Receive(ChatView(old(app.messages), old(app.nameColors)), frames, palette)
  {
    ghost var target := Receive(ChatView(app.messages, app.nameColors), frames, palette);
    var i := 0;
    while i < |frames|
      invariant 0 <= i <= |frames|
      invariant Receive(ChatView(app.messages, app.nameColors), frames[i..], palette[i..]) == target
    {
      ghost var before := ChatView(app.messages, app.nameColors);
      ReceiveNext(before, frames, palette, i);
      var frame := frames[i];
      if frame.Received? && frame.msg.Text? {
        var text := frame.msg.text;
        if IsSystem(text) {
          app.messages := app.messages + [("System", text)];
        } else {
          var parts := SplitOnce(text);
          if parts.Some? {
            var (name, msg) := parts.value;
            app.messages := app.messages + [(name, msg)];
            if name !in app.nameColors {
              app.nameColors := app.nameColors[name := palette[i]];
            }
          }
        }
      }
      assert ChatView(app.messages, app.nameColors) == Step(before, frame, palette[i]);
      i := i + 1;
    }
  }
}
