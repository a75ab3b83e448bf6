/**
 * The prompt that `parse_error_log` sends to the chat model, with the JSON
 * schema of the error-log record rendered into it.
 */
module ErrorLogPrompt {

  /** The JSON schema of the error-log record as Python renders it inside the prompt. */
  const SchemaText: string :=
    "{'properties': {'error_type': {'title': 'Error Type', 'type': 'string'}, "
    + "'error_message': {'title': 'Error Message', 'type': 'string'}, "
    + "'source': {'title': 'Source', 'type': 'string'}, "
    + "'line_number': {'title': 'Line Number', 'type': 'integer'}, "
    + "'traceback': {'title': 'Traceback', 'type': 'string'}}, "
    + "'required': ['error_type', 'error_message', 'source', 'line_number', 'traceback'], "
    + "'title': 'ErrorLogBase', 'type': 'object'}"

  /**
   * The prompt of `parse_error_log`. Only the schema is interpolated: the
   * placeholders for the input and the feedback are plain text, so neither
   * the raw error log nor the previous feedback ever reaches the model.
   */
  const Prompt: string :=
    "You are a helpful assistant that can help record error logs in a structured format."
    + "The error log should be structured based on the following fields:"
    + SchemaText
    + "If the traceback is long and contains multiple errors, parse for the error that most likely caused the main exception to be raised."
    + "Here is the error log to be evaluated, which may or may not have user input, and may or may not have the full traceback:"
    + "{_input}"
    + "Here is the feedback from the previous step, which may simply be another error log or nothing at all:"
    + "{feedback}"
}
