/** Shared result types: the `False` "unmapped" sentinel and the exceptions
    the Python code raises become values here. */
module Base {

  /** An optional value; `None` stands for the source's `False`/`None` sentinel. */
  datatype Option<+T> = None | Some(value: T)

  /** Every way a run construction or verification can abort. */
  datatype Failure =
    | NoRootFound          // Graph.root: every registered node is a child
    | AlreadyMapped        // Run.map on a node that already has a labelling
    | Unmapped             // lookup of a node the run does not map
    | RunFailed            // a whole constructor pass made no progress
    | ConnectsFailed       // the connect pass returned False
    | JumpsFailed          // the jump pass returned False
    | JumpTargetShared     // assertion: a node lies in two recorded jump pairs
    | TraversalIncomplete  // assertion: visited nodes differ from graph.nodes
    | RunIncomplete        // assertion: some registered node is unmapped
    | MalformedPair        // a recorded pair the crossing check cannot take apart
    | PathMissing          // the crossing check found no path for a recorded pair

  datatype Result<+T> = Ok(value: T) | Err(error: Failure)
}
