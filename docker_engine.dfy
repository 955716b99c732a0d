/**
 * The Docker engine as the image steps see it: each call is an operation
 * recorded in a ghost trace, and the engine's answer to each operation (an
 * error or none) is fixed when the engine is created. Pulls and pushes
 * answer with a progress stream, which the caller reads to the end and
 * closes; reading and closing are operations of their own.
 */
module DockerEngine {
  import opened Wrappers

  datatype EngineError = EngineError(message: string)

  datatype EngineOp =
    | ImagePull(ref: string, registryAuth: string)
    | ImageTag(source: string, target: string)
    | ImagePush(ref: string, registryAuth: string)
      /** Copying the progress stream of the pull or push of ref to standard output. */
    | ReadProgress(ref: string)
      /** Closing that stream (deferred in the source; its error is dropped). */
    | CloseProgress(ref: string)

  class Engine {
    /** The operations issued so far, oldest first. */
    ghost var Trace: seq<EngineOp>
    /** The engine's answer to each operation. */
    const answer: EngineOp -> Option<EngineError>

    constructor (answer: EngineOp -> Option<EngineError>)
      ensures Trace == [] && this.answer == answer
    {
      Trace := [];
      this.answer := answer;
    }

    /** Issues one operation and returns the engine's answer. */
    method Perform(op: EngineOp) returns (err: Option<EngineError>)
      modifies this
      ensures Trace == old(Trace) + [op]
      ensures err == answer(op)
    {
      Trace := Trace + [op];
      err := answer(op);
    }
  }
}
