/** Failure values of the tag store.

    The Python code raises exceptions; here each one becomes an error value
    carried by `Result`. The errors carry no payload, so an answer depends only
    on what was asked, never on the order in which Python happened to iterate
    a set.
 */
module Results {

  datatype Error =
    | Cycle          // `ValueError` from the guarded edge insertion
    | EmptyQuery     // `ValueError` from submitting a query with no tags applied
    | EmptyTagList   // `IndexError` from reading the first tag of an empty list
    | NodeNotFound   // the graph library's error for a node that is not in the graph

  datatype Result<+T> = Ok(value: T) | Err(error: Error)
}
