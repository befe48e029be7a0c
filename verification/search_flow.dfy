/**
 * The server-side search flow (natural-language-code-search.ts): its input
 * and output records, and the guard that answers an empty candidate text
 * with a fixed "not found" result instead of asking the language model.
 * The model's prompt is a parameter: whatever it returns, or its failure.
 */
module SearchFlow {
  import opened Wrappers

  /** `NaturalLanguageCodeSearchInput`: exactly two string fields. */
  datatype SearchInput = SearchInput(query: string, codeSnippet: string)

  /** `NaturalLanguageCodeSearchOutput`: exactly two string fields. */
  datatype SearchOutput = SearchOutput(relevantCode: string, explanation: string)

  /** The prompt call rejected (service error, or no output that fits the schema). */
  datatype AiError = AiError

  /** The model behind `prompt(input)`. */
  type Prompt = SearchInput -> Result<SearchOutput, AiError>

  /** The fixed answer when there is nothing to search. */
  const NoRelevantCode: SearchOutput :=
    SearchOutput("No relevant code found.", "Could not find any code matching your query.")

  /** One run of the flow: its outcome and the input the model was asked with, if it was asked at all. */
  datatype FlowRun = FlowRun(output: Result<SearchOutput, AiError>, asked: Option<SearchInput>)

  /** `naturalLanguageCodeSearchFlow` */
  function Flow(input: SearchInput, prompt: Prompt): (r: FlowRun)
    ensures r.asked.None? <==> input.codeSnippet == ""
    ensures r.asked.Some? ==> r.asked.value == input
  {
    if input.codeSnippet == "" then FlowRun(Success(NoRelevantCode), None)
    else FlowRun(prompt(input), Some(input))
  }

  /** An empty candidate text gets the fixed answer, whatever the model would have said. */
  lemma FlowCanned(input: SearchInput, prompt: Prompt, other: Prompt)
    requires input.codeSnippet == ""
    ensures Flow(input, prompt).output == Success(NoRelevantCode)
    ensures Flow(input, prompt) == Flow(input, other)
  {
  }

  /** A non-empty candidate text is passed to the model unchanged, and its answer is returned as is. */
  lemma FlowForwards(input: SearchInput, prompt: Prompt)
    requires input.codeSnippet != ""
    ensures Flow(input, prompt).asked == Some(input)
    ensures Flow(input, prompt).output == prompt(input)
  {
  }
}
