/** What the bot sends into a chat, as an abstract trace of transport calls. */
module Actions {

  /** An inline keyboard button: its text and its callback data. */
  datatype Button = Button(text: string, callbackData: string)

  datatype Action =
    | SendMessage(text: string)     // `client.send_message`
    | Reply(text: string)           // `message.reply_text(..., quote=True)`
    | Edit(text: string)            // `edit_text` on the bot's own status message
    | SendVideo(path: string, caption: string, keyboard: seq<seq<Button>>)  // `client.send_video`

  /** The texts of the edits in a trace, in order. */
  function Edits(trace: seq<Action>): (r: seq<string>)
    ensures |r| <= |trace|
    decreases |trace|
  {
    if trace == [] then []
    else (if trace[0].Edit? then [trace[0].text] else []) + Edits(trace[1..])
  }

  /** The number of videos sent in a trace. */
  function Videos(trace: seq<Action>): (n: nat)
    ensures n <= |trace|
    decreases |trace|
  {
    if trace == [] then 0
    else (if trace[0].SendVideo? then 1 else 0) + Videos(trace[1..])
  }

  /** Every button attached to the videos of a trace, row by row. */
  function Buttons(trace: seq<Action>): seq<Button>
    decreases |trace|
  {
    if trace == [] then []
    else (if trace[0].SendVideo? then Flatten(trace[0].keyboard) else []) + Buttons(trace[1..])
  }

  /** The buttons of a keyboard, row after row. */
  function Flatten(rows: seq<seq<Button>>): seq<Button>
    decreases |rows|
  {
    if rows == [] then [] else rows[0] + Flatten(rows[1..])
  }

  /** The edits of two traces one after the other are the edits of the first
      followed by those of the second. */
  lemma {:induction false} EditsAppend(a: seq<Action>, b: seq<Action>)
    ensures Edits(a + b) == Edits(a) + Edits(b)
    decreases |a|
  {
    if a == [] {
      assert a + b == b;
    } else {
      var head := (if a[0].Edit? then [a[0].text] else []);
      assert (a + b)[0] == a[0] && (a + b)[1..] == a[1..] + b;
      EditsAppend(a[1..], b);
      assert head + (Edits(a[1..]) + Edits(b)) == (head + Edits(a[1..])) + Edits(b);
    }
  }

  /** The same holds for the videos. */
  lemma {:induction false} VideosAppend(a: seq<Action>, b: seq<Action>)
    ensures Videos(a + b) == Videos(a) + Videos(b)
    decreases |a|
  {
    if a == [] {
      assert a + b == b;
    } else {
      assert (a + b)[0] == a[0] && (a + b)[1..] == a[1..] + b;
      VideosAppend(a[1..], b);
    }
  }

  /** And for the buttons. */
  lemma {:induction false} ButtonsAppend(a: seq<Action>, b: seq<Action>)
    ensures Buttons(a + b) == Buttons(a) + Buttons(b)
    decreases |a|
  {
    if a == [] {
      assert a + b == b;
    } else {
      var head := (if a[0].SendVideo? then Flatten(a[0].keyboard) else []);
      assert (a + b)[0] == a[0] && (a + b)[1..] == a[1..] + b;
      ButtonsAppend(a[1..], b);
      assert head + (Buttons(a[1..]) + Buttons(b)) == (head + Buttons(a[1..])) + Buttons(b);
    }
  }

  /** A trace without videos carries no buttons. */
  lemma {:induction false} NoVideosNoButtons(trace: seq<Action>)
    requires Videos(trace) == 0
    ensures Buttons(trace) == []
    decreases |trace|
  {
    if trace != [] {
      NoVideosNoButtons(trace[1..]);
    }
  }
}
