# ErrorManager core: the error-log extraction graph and the project tools

This project models two parts of the ErrorManager backend in Dafny and proves properties about them.

1. **The error-log extraction graph** (`backend/services/langgraph.py`), in module `ErrorLogGraph` (`error_log_graph.dfy`). The prompt of the parse node, with the record's JSON schema rendered into it, is the constant `Prompt` of module `ErrorLogPrompt` (`error_log_prompt.dfy`).
   The graph has three nodes: `control_node`, `parse_error_log` and `evaluate_error_log`.
   They run over a four-field state: `state`, `input`, `output` and `feedback`.
   - Each node is a pure function that returns a partial `Update`.
   - `Merge` overwrites only the fields that the update names.
   - The conditional edge out of `control_node` is the label map `RouteMap`.
   - The library's run loop is written out as `Run`. Each executed node costs one unit of fuel, and `Run` records the nodes it executed as a trace.
   - The chat model's reply to the prompt, the JSON validation against the error-log record and the validation error list are opaque. They are the fields of `Oracles`.
   - The number of model calls in a run is the number of `Parse` entries in its trace.
2. **The project tools** (`backend/helpers/lang_tools.py`), in module `ProjectTools` (`project_tools.dfy`).
   - The `projects` table is the class `ProjectTable`. It holds a map from id to row and the id that the next insert receives.
   - `get_projects` and `get_project` are functions over the table. `create_project`, `update_project` and `delete_projects` are methods that change the map.
   - Arguments are optional as in Python: `None` is `Option.None`. They are tested by Python truthiness, so an id of 0, an empty uuid and an empty list count as absent.
   - A path on which the tool raises instead of returning gives `Reply.Fails`.

What the proofs show about the graph as written:
- Starting with no output and a model that replies, the run ends after one model call. The evaluate node never executes, so the final output is the model's reply, never validated.
- Starting from an output that fails validation under the label `parse_error_log`, control and evaluate alternate for as long as fuel lasts. The model is never called again.
- Routing never produces a label missing from the route map.

The prompt never contains the error log or the feedback: only the schema is interpolated, and `{_input}` and `{feedback}` are literal text. The model takes this from the source as a design fact rather than proving it. The prompt is the constant `ErrorLogPrompt.Prompt`, and the model's reply to it is an oracle value that no state can influence.

The code has no retry counter, no success flag and no iteration ceiling, and the model adds none.

## Model

| member | source | states |
|---|---|---|
| `ErrorLogGraph.ControlNode` | backend/services/langgraph.py:16-29 | The update names only `state`, and its label is always in the route map. The label is `parse_error_log` exactly when `output` is None, whatever the current `state`. It is `evaluate_error_log` exactly when an output exists and the state is `parse_error_log`. It is `END` exactly when an output exists and the state is anything else. |
| `ErrorLogGraph.EvaluateNode` | backend/services/langgraph.py:31-41 | Evaluation never changes `output` or `input`. On a valid output only `state` becomes `END`. On a failure `state` becomes `parse_error_log` and `feedback` becomes the validation errors. |
| `ErrorLogGraph.ParseNode` | backend/services/langgraph.py:43-61 | Parsing sets `output` to the model's reply to the fixed prompt and `state` to `evaluate_error_log`. `input` and `feedback` are left as they were, and nothing of the state reaches the model. |
| `ErrorLogGraph.Run` | backend/services/langgraph.py:63-80 | A run never stops on an unmapped label and never changes `input`. It executes at most one node per unit of fuel, and a run that runs out of fuel has executed exactly one node per unit. |
| `ErrorLogGraph.FinishedAtEnd` | backend/services/langgraph.py:22-29 | A run that finishes ends at `END` after a control step, with an output present. |
| `ErrorLogGraph.NoOutputEndsUnvalidated` | backend/services/langgraph.py:22-27 | With no output and a model that answers, the run is exactly control, parse, control. It makes one model call, evaluate never runs, and it ends at `END` holding the unvalidated reply. |
| `ErrorLogGraph.ValidOutputEnds` | backend/services/langgraph.py:37-39 | With an output that validates under the label `parse_error_log`, the run is control, evaluate, control. It ends at `END` with the output unchanged and makes no model call. |
| `ErrorLogGraph.OutputPresentEndsAtOnce` | backend/services/langgraph.py:26-29 | With an output present and any label other than `parse_error_log`, the run ends at the first control step with no model call. |
| `ErrorLogGraph.RejectedRound` | backend/services/langgraph.py:24-41 | One control-then-evaluate round on an output that fails validation returns to the label `parse_error_log` with the same output. Only `feedback` changes. |
| `ErrorLogGraph.RejectedOutputLoopsForever` | backend/services/langgraph.py:40-41 | From an output that fails validation under the label `parse_error_log`, no amount of fuel finishes the run. The trace alternates control and evaluate, the model is never called, and the output never changes. |
| `ErrorLogGraph.NoReplyAlternates` | backend/services/langgraph.py:22-23 | With no output and a model whose reply is None, no amount of fuel finishes the run, and the trace alternates control and parse. |
| `ErrorLogGraph.NoReplyCallsModelForever` | backend/services/langgraph.py:60-61 | In that case the model is called once per control-then-parse round: fuel / 2 times for a given fuel. |
| `ProjectTools.RowWithUuid` | backend/helpers/lang_tools.py:44-45 | A uuid query finds a row exactly when some row has that uuid. The row it finds has that uuid and is the one stored under its id. |
| `ProjectTools.InIdOrder` | backend/helpers/lang_tools.py:29-30 | A listing holds every row of the table exactly once and nothing else, in ascending id order. |
| `ProjectTools.Selected` | backend/helpers/lang_tools.py:106-111 | With a non-empty id list, the delete query selects exactly the rows whose id is in it. Without one but with a non-empty uuid list, it selects exactly the rows whose uuid is in that list. With neither, it selects nothing. Each selected row is the stored row. |
| `ProjectTools.UpdateReply` | backend/helpers/lang_tools.py:75-88 | With neither key given, the reply is "No project id or uuid provided". A truthy id that matches no row gives "Project with id N not found". Otherwise a uuid that matches no row gives "Project with uuid U not found". A key that matches a row makes the tool raise, so no path returns a project. |
| `ProjectTools.DecimalText` | backend/helpers/lang_tools.py:79 | An id is written in the message as the decimal digits that denote its absolute value, with no leading zero, led by '-' when negative. |
| `ProjectTools.ProjectTable.GetProjects` | backend/helpers/lang_tools.py:19-30 | The result holds every row of the table exactly once and nothing else, in id order. The table is read, never written. |
| `ProjectTools.ProjectTable.GetProject` | backend/helpers/lang_tools.py:32-48 | With neither key given, the reply is exactly "No project id or uuid provided". A truthy id returns the row with that id exactly when it exists. Otherwise a truthy uuid returns the row with that uuid exactly when it exists. A key that matches no row makes the tool raise. |
| `ProjectTools.ProjectTable.CreateProject` | backend/helpers/lang_tools.py:50-64 | Create adds exactly one row, under a fresh id, with the given name, description and uuid. All existing rows are unchanged and the new row is returned. A uuid already in use makes the commit raise and leaves the table unchanged. |
| `ProjectTools.ProjectTable.UpdateProject` | backend/helpers/lang_tools.py:66-94 | The reply is `UpdateReply` of the table, the id and the uuid. It never depends on the name or description, and the table is not written. |
| `ProjectTools.ProjectTable.UpdateProjectIntended` | backend/helpers/lang_tools.py:87-94 | The corrected update. The row found by id, or failing that by uuid, takes each given name and description and the update time. Every other row and field is unchanged. A missing key or an unmatched key leaves the table unchanged and gives the messages of `UpdateReply`. |
| `ProjectTools.ProjectTable.DeleteEach` | backend/helpers/lang_tools.py:112-113 | The deletion loop removes exactly the ids of the listed rows and keeps every other row. |
| `ProjectTools.ProjectTable.DeleteProjects` | backend/helpers/lang_tools.py:96-115 | With neither list given, the reply is "No project ids or uuids provided" and the table is unchanged. Otherwise exactly the selected rows are removed, and they are returned in id order. |
| `ProjectTools.DeleteRemovesExactlyMatches` | backend/helpers/lang_tools.py:106-115 | After a delete, a row remains exactly when it does not match, and it is unchanged. The returned rows are exactly the rows that match. Listed keys with no row are skipped. |
| `ProjectTools.GetProjectPrefersId` | backend/helpers/lang_tools.py:42-45 | With a truthy id, `get_project` ignores the uuid. |
| `ProjectTools.UpdatePrefersId` | backend/helpers/lang_tools.py:76-81 | With a truthy id, `update_project` ignores the uuid. |
| `ProjectTools.DeletePrefersIds` | backend/helpers/lang_tools.py:106-109 | With a non-empty id list, `delete_projects` ignores the uuid list. |
| `ProjectTools.ZeroIdRowUnreachable` | backend/helpers/lang_tools.py:42-47 | A row stored under id 0 cannot be reached by id. Both `get_project` and `update_project` answer "No project id or uuid provided" for id 0. |
| `ProjectTools.FalsyArgumentsAreAbsent` | backend/helpers/lang_tools.py:42-47 | An id of 0 together with an empty uuid gives the "No project id or uuid provided" reply from both `get_project` and `update_project`. Empty lists count as not given. |
| `ProjectTools.UpdateOfExistingRowRaises` | backend/helpers/lang_tools.py:87-88 | As written, `update_project` raises for every existing id, whatever the uuid. |

## Left out

- The chat model (`ChatOllama`, `llm.invoke`) is only ever called with the fixed prompt `ErrorLogPrompt.Prompt`. It is modelled by its reply to that prompt, `Oracles.reply`. A model that answers the same prompt differently on different calls is not modelled.
- `llm.invoke` returns a message object, never None. The reply None in `Oracles.reply` stands for a reply that leaves the output empty. The chat model never produces it, so `ErrorLogGraph.NoReplyAlternates` and `ErrorLogGraph.NoReplyCallsModelForever` describe a case that does not arise with it. They show what the graph would do if it did.
- `ErrorLogBase.model_validate_json` is the oracle predicate `Oracles.validates`. `e.errors()` is `Oracles.errors`, a string. The code stores a list in a field declared `str`; that mismatch is not modelled.
- The prompt renders the record's JSON schema as written out in `SchemaText`. This text comes from pydantic, which is not part of this model.
- Graph building and compiling, the library's own recursion limit and the PNG rendering (`save_langgraph_graph`) are left out. The run is `Run`, and running out of fuel stands for non-termination.
- The graph runtime validates the merged state against its pydantic class. That check is not modelled.
- `get_current_date_time` reads the clock and is left out. The clock values written into rows are the `now` parameters.
- `ProjectResponse.model_validate` is taken to return the row itself. As written, that validation would fail on every stored row: `ProjectResponse` declares `project_created_at` and `project_updated_at` as `str` (backend/pydantic_models/project_models.py:8-9), the row holds datetimes, and pydantic 2 does not accept a datetime for a `str` field. The identity stands in for that failing validation. As written, `get_projects` on a non-empty table and `get_project` on a found row would raise. So would `create_project` after its commit, and `delete_projects` after a commit that deleted at least one row. The model returns the rows instead.
- Database sessions, `commit` and `refresh` are folded into one atomic update of the map.
- New ids come from a counter that only grows. The database engine's real id policy is set in `database.py`, which is not part of this model.
- The new row's uuid is a parameter, because `uuid4` is random.
- Ids are unbounded integers. The 64-bit width of the database column is not modelled.
- The queries have no ORDER BY. The model fixes their order to ascending id.
- The `@tool` wrapper and its coercion of model-supplied JSON arguments are not modelled. Arguments arrive with the declared types.
- `ProjectTools.ProjectTable.UpdateProject`: the timestamp write and the commit that follow `model_dump` are not modelled, because they are never reached.
- `ProjectTools.ProjectTable.GetProject`: on a key that matches no row, only the failure is modelled (`model_validate(None)` raises), not what is raised.
- Vector store, embeddings, session cookies, HTTP routes and table creation are outside the core and are left out.

## Findings

| source | as written | input that shows it | evidently intended | confidence | as-written member | corrected member |
|---|---|---|---|---|---|---|
| backend/helpers/lang_tools.py:87 | `update_project` calls `model_dump` on the database row, which `Project` (backend/db_models/db_models.py:21-28) does not define. So every call that finds its row raises before writing, and `project_name` and `project_description` are never read. | `update_project(project_id=1, project_name="x")` with a row of id 1 present | set the given name and description on the found row, stamp its update time and return it | medium, not executed (`Base` comes from `database.py`, which is not part of this model) | `ProjectTools.UpdateOfExistingRowRaises` | `ProjectTools.ProjectTable.UpdateProjectIntended` |
