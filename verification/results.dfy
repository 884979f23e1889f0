/** Failure-carrying results for the operations of the dice simulator.
    Each error names one exception the Python classes raise. */
module Results {

  datatype Error =
    | FacesNotArray         // Die(): the faces are not a NumPy array (TypeError)
    | DuplicateFaces        // Die(): some face occurs twice (ValueError)
    | UnknownFace           // Die.change_weight(): the face is not on the die (IndexError)
    | WeightNotNumeric      // Die.change_weight(): float() refuses the weight (TypeError)
    | InvalidProbabilities  // Die.roll(): weights / weights.sum() is not a probability vector (ValueError)
    | NegativeRollCount     // Die.roll(): a negative sample size (ValueError)
    | NoGamePlayed          // Game.show(): no play yet (ValueError)
    | InvalidForm           // Game.show(): the form is neither 'wide' nor 'narrow' (ValueError)

  datatype Option<+T> = None | Some(value: T)

  datatype Result<+T> = Success(value: T) | Failure(error: Error)
}
