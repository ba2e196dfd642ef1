/**
 * The wire texts of the chat: the registration/command response frame (a
 * status word left-justified in a 10-character field, then the message), how
 * the console client reads that frame back, and the coloured "not found"
 * notice sent for an unknown private recipient.
 */
module Protocol {
  import opened PyStr

  /** Width of the status field. */
  const StatusWidth := 10

  const Ok := "OK"
  const Error := "ERROR"

  /** colorama's `Fore.RED` and `Style.RESET_ALL` escape sequences. */
  const Red := "\U{1b}[31m"
  const ResetAll := "\U{1b}[0m"

  /** `Server._send_success_response`: status field, a newline, then the text. */
  function SuccessResponse(text: string): string
  {
    Ljust(Ok, StatusWidth) + "\n" + text
  }

  /** `Server._send_error_response`: status field, a newline, then the text. */
  function ErrorResponse(text: string): string
  {
    Ljust(Error, StatusWidth) + "\n" + text
  }

  /** The frame of the older `ServerService`: status field immediately followed by the text. */
  function BareResponse(status: string, text: string): string
  {
    Ljust(status, StatusWidth) + text
  }

  /** `response[:10].strip()` as the console client reads the status. */
  function ResponseStatus(response: string): string
  {
    Strip(response[..if |response| < StatusWidth then |response| else StatusWidth])
  }

  /** `response[10:]` as the console client reads the message. */
  function ResponseBody(response: string): string
  {
    response[if |response| < StatusWidth then |response| else StatusWidth..]
  }

  /**
   * Any status word of at most ten characters without outer whitespace survives
   * the frame: the client recovers the status and exactly the text after the field.
   */
  lemma FrameRoundTrip(status: string, text: string)
    requires 0 < |status| <= StatusWidth
    requires !IsSpace(status[0]) && !IsSpace(status[|status| - 1])
    ensures ResponseStatus(BareResponse(status, text)) == status
    ensures ResponseBody(BareResponse(status, text)) == text
  {
    var field := Ljust(status, StatusWidth);
    var response := field + text;
    assert response[..StatusWidth] == field;
    assert field == status + field[|status|..];
    StripPadded(status, field[|status|..]);
  }

  /** The server's success frame reads back as `OK` followed by a newline and the text. */
  lemma SuccessRoundTrip(text: string)
    ensures ResponseStatus(SuccessResponse(text)) == Ok
    ensures ResponseBody(SuccessResponse(text)) == "\n" + text
  {
    FrameRoundTrip(Ok, "\n" + text);
    assert SuccessResponse(text) == BareResponse(Ok, "\n" + text);
  }

  /** The server's error frame reads back as `ERROR` followed by a newline and the text. */
  lemma ErrorRoundTrip(text: string)
    ensures ResponseStatus(ErrorResponse(text)) == Error
    ensures ResponseBody(ErrorResponse(text)) == "\n" + text
  {
    FrameRoundTrip(Error, "\n" + text);
    assert ErrorResponse(text) == BareResponse(Error, "\n" + text);
  }

  /** The two statuses never read back as each other. */
  lemma StatusesDistinct(a: string, b: string)
    ensures ResponseStatus(SuccessResponse(a)) != ResponseStatus(ErrorResponse(b))
  {
    SuccessRoundTrip(a);
    ErrorRoundTrip(b);
  }

  /** `Fore.RED + f'Erro: {recipient} não encontrado' + Style.RESET_ALL`. */
  function NotFoundNotice(recipient: string): string
  {
    Red + "Erro: " + recipient + " não encontrado" + ResetAll
  }
}
