/** Option, Result and the failures that stop the decoding run. */
module Common {

  datatype Option<T> = None | Some(value: T)

  /** One constructor per exception the program can raise on its inputs. */
  datatype Error =
    | NoValidImage                  // `next` on the filtered results: every image was rejected
    | RowLengthMismatch             // `np.append` of a row whose length differs from the first row's
    | UnmatchedComment(image: nat)  // the comment of that image does not match, so `m.group` fails
    | MissingKey(key: nat)          // `del` of a sequence number the map does not hold
    | PositionOutOfRange(key: nat)  // a sequence position at or past the number of columns

  datatype Result<T> = Ok(value: T) | Err(error: Error)
}
