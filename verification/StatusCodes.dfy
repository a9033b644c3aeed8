/** What the conversions of `CommonFnc.cpp` return. */
module StatusCodes {
  datatype Status = Ok | NotEnoughMemory
}
