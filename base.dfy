/** Values shared by every part of the model: optional values, and the
    exceptions the script can raise while it walks an outline. The script
    catches none of them, so the first one ends the whole run. */
module Base {

  datatype Option<T> = None | Some(value: T)

  /** Why a run stopped. Each constructor names the Python exception and the
      expression of explode_bulkprint.py that raises it. */
  datatype Failure =
    | PageOutOfRange(page: nat)  // IndexError: doc.getPage(j) with j past the last page
    | EmptyNameLine              // IndexError: c_fullname[0] on a blank first line
    | MissingFirstName           // IndexError: c_fullname[1] when the line is only a title
    | MissingEmailLabel          // ValueError: details.index('Email Address:')
    | MissingEmailLine           // IndexError: details[index + 1] past the last line
    | NoNextTopLevel             // IndexError: doc.outlines[k] past the end of the outline

  datatype Result<T> = Ok(value: T) | Err(failure: Failure)
}
