/**
 * The command router: a chat line is trimmed, must start with the command prefix,
 * and its first white-space separated field picks the reply.
 */
module Router {
  import opened Text

  datatype Response = Response(text: string)

  /**
   * What `Handle` does with a line: reply, or fail with Go's index-out-of-range panic
   * on `params[0]` when nothing but white space follows the prefix.
   */
  datatype Outcome = Reply(response: Response) | IndexOutOfRange

  const DeadlineReply: string := "you called deadline with params "
  const PinsReply: string := "you called pins with params "
  const HelpReply: string := "you called help"
  const UnknownReply: string := "unknown command, use .h for help"

  /** Go's `strings.CutPrefix`. */
  function CutPrefix(s: string, prefix: string): (r: (string, bool))
    ensures r.1 <==> prefix <= s
    ensures r.1 ==> s == prefix + r.0
    ensures !r.1 ==> r.0 == s
  {
    if prefix <= s then (s[|prefix|..], true) else (s, false)
  }

  /** The `switch` on the first field. */
  function Dispatch(params: seq<string>): (text: string)
    requires |params| > 0
    ensures text != ""
    ensures params[0] == "d" ==> text == DeadlineReply + Join(params[1..], ",")
    ensures params[0] == "p" ==> text == PinsReply + Join(params[1..], ",")
    ensures params[0] == "h" ==> text == HelpReply
    ensures params[0] !in {"d", "p", "h"} ==> text == UnknownReply
  {
    match params[0]
    case "d" => DeadlineReply + Join(params[1..], ",")
    case "p" => PinsReply + Join(params[1..], ",")
    case "h" => HelpReply
    case _ => UnknownReply
  }

  /** The text after the prefix of the trimmed line, when the prefix is there. */
  function Command(input: string, prefix: string): string {
    CutPrefix(TrimSpace(input), prefix).0
  }

  /** `bot.Handle`. */
  function Handle(input: string, prefix: string): (r: Outcome)
    ensures !(prefix <= TrimSpace(input)) ==> r == Reply(Response(""))
    ensures r == IndexOutOfRange <==> prefix <= TrimSpace(input) && AllSpace(Command(input, prefix))
    ensures prefix <= TrimSpace(input) && r.Reply? ==> r.response.text != ""
  {
    var (after, found) := CutPrefix(TrimSpace(input), prefix);
    if !found then Reply(Response(""))
    else
      var params := Fields(after);
      FieldsEmptyIffAllSpace(after);
      if params == [] then IndexOutOfRange
      else Reply(Response(Dispatch(params)))
  }

  /** White space around the line never changes the outcome. */
  lemma {:induction false} HandleIgnoresPadding(w1: string, input: string, w2: string, prefix: string)
    requires AllSpace(w1) && AllSpace(w2)
    ensures Handle(w1 + input + w2, prefix) == Handle(input, prefix)
  {
    TrimSpaceIgnoresPadding(w1, input, w2);
  }

  /** Once the prefix is found and a field follows it, the fields pick the reply. */
  lemma {:induction false} HandleFound(input: string, prefix: string)
    requires prefix <= TrimSpace(input) && Fields(Command(input, prefix)) != []
    ensures Handle(input, prefix) == Reply(Response(Dispatch(Fields(Command(input, prefix)))))
  {
  }

  lemma {:induction false} JoinEndsWithWord(xs: seq<string>, sep: string)
    requires |xs| > 0 && Words(xs)
    ensures var j := Join(xs, sep); j != [] && !IsSpace(j[|j| - 1])
    decreases |xs|
  {
    if |xs| > 1 {
      WordsTail(xs);
      JoinEndsWithWord(xs[1..], sep);
    }
  }

  /**
   * A command line written as the prefix followed by space-separated words gets the
   * reply the first word selects, with the other words as its parameters.
   */
  lemma {:induction false} HandleCommandLine(prefix: string, words: seq<string>)
    requires prefix != [] && !IsSpace(prefix[0])
    requires |words| > 0 && Words(words)
    ensures Handle(prefix + Join(words, " "), prefix) == Reply(Response(Dispatch(words)))
  {
    var j := Join(words, " ");
    var line := prefix + j;
    JoinEndsWithWord(words, " ");
    assert line[|line| - 1] == j[|j| - 1];
    TrimSpaceOfTrimmed(line);
    assert line[|prefix|..] == j;
    assert Command(line, prefix) == j;
    FieldsOfJoin(words);
    HandleFound(line, prefix);
  }
}
