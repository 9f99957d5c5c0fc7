# Community detection REST service: status, health and submission wait

A Dafny model of the four parts of `commundetect_rest/__init__.py` that
hold logic beyond Flask and Celery glue:

- **Status projection** (`GetTask`): the task engine's state string
  (`PENDING`, `STARTED`, `PROCESSING`, `RETRY`, `SUCCESS`, `FAILURE`,
  `REVOKED`) is mapped to a public status (`submitted`, `processing`,
  `done`); any other state passes through unchanged.
- **Status reply** (`GetTask`): a ready task's stored result is returned as
  it is; otherwise a dictionary is built holding `status` and then every
  key of the engine's `info`, copied over it, so an `info` entry named
  `status` wins.
- **Disk-full decision** (`ServerHealth`): the `ServerStatus` object reports
  `error` with message `Disk is full` exactly when the disk usage
  percentage reaches the configured cutoff (default 90); a failed disk
  query gives the percentage -1.
- **Directory wait** (`TaskSubmission`): after creating a job directory the
  submission path polls for it, sleeping after each failed check, and
  raises once its counter has passed 10.

The engine's answers (readiness, stored result, state, info), the disk
percentage, the load average and the outcome of every existence check are
inputs of the model. JSON values are the `Values.Json` datatype; Python's
`None` is `JNull`.

The module defines `UNKNOWN_STATUS` (`commundetect_rest/__init__.py:47`)
but never uses it: an engine state missing from the table is reported
verbatim.

The directory wait makes up to 12 checks and 12 sleeps of 0.1 s before
raising (counter values 0 to 11), though its message says "10 seconds".
The configured `WAIT_COUNT` and `SLEEP_TIME` settings
(`commundetect_rest/__init__.py:91-92`) are not used by this loop.

## Model

| member | source | states |
|---|---|---|
| `GetTask.Project` | commundetect_rest/__init__.py:333-336 | the table lookup with pass-through agrees, on every state, with an explicit case analysis over the seven listed engine states and a verbatim default arm; it never fails |
| `GetTask.TableEntries` | commundetect_rest/__init__.py:305-311 | PENDING is submitted; STARTED, PROCESSING and RETRY are processing; SUCCESS, FAILURE and REVOKED are done |
| `GetTask.TableNeverYieldsError` | commundetect_rest/__init__.py:305-311 | a listed engine state is reported as submitted, processing or done, never as error |
| `GetTask.UnlistedStatePassesThrough` | commundetect_rest/__init__.py:333-336 | a state the table does not list is reported verbatim |
| `GetTask.ErrorOnlyVerbatim` | commundetect_rest/__init__.py:305-336 | the reported status is `error` if and only if the engine state is the literal string `error` |
| `GetTask.DoneIff` | commundetect_rest/__init__.py:305-336 | the reported status is `done` if and only if the engine state is SUCCESS, FAILURE, REVOKED or the literal `done` |
| `GetTask.ProjectIdempotent` | commundetect_rest/__init__.py:305-336 | projecting an already projected status changes nothing, since no public status is a listed engine state |
| `GetTask.StatusResponseUnique` | commundetect_rest/__init__.py:331-341 | the key set, the copied info values and the projected status together determine the reply dictionary |
| `GetTask.StatusOnlyWithoutInfo` | commundetect_rest/__init__.py:331-343 | with no info the reply is exactly `{status: projected}` |
| `GetTask.AssembleStatus` | commundetect_rest/__init__.py:331-341 | the built dictionary has key `status` plus every info key, every info key maps to its info value (so an info `status` overrides), and otherwise `status` maps to the projected state |
| `GetTask.Get` | commundetect_rest/__init__.py:327-343 | a ready task's stored result is returned unchanged with no projection; otherwise the reply is the status dictionary over info (none when info is absent), and the endpoint fails exactly when info is neither absent nor a dictionary |
| `ServerHealth.ServerStatus.constructor` | commundetect_rest/__init__.py:384-412 | the percentage is the measured one or -1 when the query failed; status is `error` with message `Disk is full` if and only if the percentage reaches the cutoff, otherwise `ok` with an empty message; a failed query is `ok` under any cutoff above -1 (the default 90 included); load and version as given |
| `TaskSubmission.AwaitJobDir` | commundetect_rest/__init__.py:261-268 | returns at the first check that sees the directory, after one sleep per earlier failed check; it raises with the "did not get created" message if and only if all 12 checks fail, after 12 sleeps; it always terminates and never sleeps more than 12 times |

## Left out

- Flask and flask_restplus wiring, request parsing, Swagger models, rate limiting and CORS: framework behaviour, not logic of the service.
- The Celery calls (`apply_async`, `AsyncResult`, `ready`, `get`, `revoke`, `forget`): a foreign library; their answers are inputs. In particular `get` re-raising a failed task's exception is not modelled, and `DELETE /v1/<id>` holds nothing beyond those calls.
- Directory creation, permission changes, the temporary-file copy and rename, and the sleeps of the submission path: filesystem and clock I/O; only the outcome of each existence check is modelled, as the `seen` oracle.
- `os.statvfs` and the floating-point percentage it yields, and `os.getloadavg`: OS calls and floating point; the percentage is an integer input (`None` when the query raised) and the load average a triple of reals.
- The `OPTIONS` handlers: they return fixed headers.
- The JSON marshalling of `ServerStatus` by the status endpoint: framework behaviour.
- An engine `info` that is an exception object is covered only as "not a dictionary", the branch on which `info.keys()` fails.
- `commundetect_rest/tasks.py` (the subprocess call, the stub task and the Celery configuration) and `setup.py` are not part of this model.
