/** `AssistantResponse` and its two factories. The creation time, which the
    source reads from the clock, is passed in as `now`. */
module AssistantResponses {
  import opened Wrappers

  const AssistantName: string := "GitHubAssistant"
  const ChatType: string := "chat"
  const ErrorType: string := "error"

  /** The record; `responseType` is the source's `type`. */
  datatype AssistantResponse = AssistantResponse(
    success: bool,
    assistant: string,
    responseType: string,
    question: Option<string>,
    data: Option<string>,
    error: Option<string>,
    timestamp: string)

  /** A well-formed response: a success carries data and no error, a
      failure an error and no data, and the type follows the outcome. */
  predicate Consistent(r: AssistantResponse) {
    && r.assistant == AssistantName
    && (r.success ==> r.responseType == ChatType && r.error.None?)
    && (!r.success ==> r.responseType == ErrorType && r.data.None?)
  }

  /** `AssistantResponse.success(question, data)`. */
  function Success(question: Option<string>, data: Option<string>, now: string): (r: AssistantResponse)
    ensures r.success && Consistent(r)
    ensures r.question == question && r.data == data && r.timestamp == now
  {
    AssistantResponse(true, AssistantName, ChatType, question, data, None, now)
  }

  /** `AssistantResponse.error(question, error)`. */
  function Error(question: Option<string>, error: Option<string>, now: string): (r: AssistantResponse)
    ensures !r.success && Consistent(r)
    ensures r.question == question && r.error == error && r.timestamp == now
  {
    AssistantResponse(false, AssistantName, ErrorType, question, None, error, now)
  }

  /** The two factories never build the same record, and the type alone
      tells them apart. */
  lemma FactoriesDistinct(q1: Option<string>, d: Option<string>, q2: Option<string>, e: Option<string>, t1: string, t2: string)
    ensures Success(q1, d, t1) != Error(q2, e, t2)
    ensures Success(q1, d, t1).responseType != Error(q2, e, t2).responseType
  {
    assert ChatType[0] != ErrorType[0];
  }

  /** A consistent record is rebuilt by the factory its outcome names, from
      its own question, payload and time. */
  lemma ConsistentIsFactoryBuilt(r: AssistantResponse)
    requires Consistent(r)
    ensures r.success ==> r == Success(r.question, r.data, r.timestamp)
    ensures !r.success ==> r == Error(r.question, r.error, r.timestamp)
  {
  }
}
