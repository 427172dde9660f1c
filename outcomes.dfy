/** Error values shared by the tree, the filesystem gateway and the walks, and an
    optional value. Go returns `error` values; the model names each distinct failure. */
module Outcomes {

  datatype Error =
    | NilNode          // a required node argument is nil
    | NoParent         // the node to delete has no parent (it is the root)
    | NotFolder        // the node is not a folder
    | EmptyName        // the name of a new node is empty
    | NoSelection      // nothing is selected
    | BadDelta         // a move delta other than -1 or 1
    | HasChildren      // a walk was started on a node that already has children
    | EmptyPath        // the gateway was given an empty path
    | AlreadyExists    // the gateway found the path already present
    | NotFound         // the gateway did not find the path
    | IsDirectory      // deleteFile was given a directory
    | IsRegularFile    // deleteFolder was given a regular file
    | ReadDirFailed    // the directory listing could not be read
    | OsFailure        // the underlying system call reported an error

  datatype Outcome = Ok | Fail(error: Error)

  datatype Option<T> = None | Some(value: T)
}
