/** A competitor. The engine only ever compares players by identity, so a
    player is an object: two players made from the same colour are still two
    different players. */
module Players {

  class Player {
    /** The colour chosen on the form; the engine only shows it to the user. */
    const color: string

    constructor(color: string)
      ensures this.color == color
    {
      this.color := color;
    }
  }
}
