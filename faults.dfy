/** Why the processing of one file raised.  The batch loop catches every one
    of these and moves on to the next file. */
module Faults {

  datatype Fault =
    | LoadFailed      // open/read, the segmentation call or decoding raised
    | NoSubject       // getbbox() found no pixel with non-zero alpha
    | NonFiniteBevel  // int() of an infinite or NaN bevel product
    | NegativeSize    // Image.new asked for a negative expanded width or height
    | ZeroHeight      // the aspect ratio divided by an expanded height of 0
    | EmptyResize     // resize to a size with a zero side
    | WriteFailed     // saving the PNG raised
}
