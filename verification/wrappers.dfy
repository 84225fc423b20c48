/** Failure-carrying datatypes shared by every module of the model. */
module Wrappers {

  /** A value that may be absent: the model of a nullable pointer. */
  datatype Option<+T> = None | Some(value: T)

  /** The outcome of an operation that returns an `svn_error_t *`:
      either its out-parameters or the error. */
  datatype Result<+R, +E> = Success(value: R) | Failure(error: E)
}

/** The Subversion error codes that the modelled operations can raise. */
module Errors {

  datatype SvnError =
    | BadUrl                  // SVN_ERR_BAD_URL
    | RaSvnBadVersion         // SVN_ERR_RA_SVN_BAD_VERSION
    | RaSvnMalformedData      // SVN_ERR_RA_SVN_MALFORMED_DATA
    | RaNotImplemented        // SVN_ERR_RA_NOT_IMPLEMENTED
    | UnknownCapability       // SVN_ERR_UNKNOWN_CAPABILITY
    | BadPropertyValue        // SVN_ERR_BAD_PROPERTY_VALUE
    | AssertionFail           // SVN_ERR_ASSERTION_FAIL, raised by SVN_ERR_ASSERT
    | FsNoSuchRevision        // SVN_ERR_FS_NO_SUCH_REVISION
    | IoError(status: int)    // an APR status propagated unchanged
    | CeaseInvocation         // SVN_ERR_CEASE_INVOCATION, a receiver asking to stop
    | Callback(code: int)     // an error returned by a caller-supplied callback
}

/** Revision numbers (svn_types.h). */
module SvnTypes {

  /** `svn_revnum_t`: a revision number, or the invalid revision. */
  type Revnum = int

  /** `SVN_INVALID_REVNUM` */
  const InvalidRevnum: Revnum := -1
}
